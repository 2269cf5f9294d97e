/** Loading an ELF program: file into a page buffer, segments into fresh frames behind new page
    tables, arguments onto the stack; every way out gives back what it must. */
module Process {
  import opened Bytes
  import opened Pmm
  import opened PageTables
  import opened UserPaths
  import opened TableNeeds
  import opened Vmm
  import opened ElfImage

  const STACK_PAGE: nat := 0x7_0000_0000
  const USER_WRITE: nat := 6

  datatype Status = Mapped | OutOfMemory | BadSegment | OutOfTables

  /** How an exec ends. Starved is where the program would go on with page 0 as a page table. */
  datatype Outcome =
    | NotFound | NoBuffer | ReadFailed | BadMagic | BadHeaders | BadEntry
    | NoPagemap | BadAddress | NoMemory | NoStack | Starved
    | Running(root: nat, entry: nat, rsp: nat)

  // ----- the file buffer

  /** The n frames from b on hold the bytes img. */
  ghost predicate BufferHolds(mem: Memory, b: nat, n: nat, img: seq<Byte>) {
    && b + n <= |mem| && |img| == 4096 * n
    && forall o :: 0 <= o < 4096 * n ==> mem[b + o / 4096][o % 4096] == img[o]
  }

  ghost function BufferBytes(mem: Memory, b: nat, n: nat): (img: seq<Byte>)
    requires b + n <= |mem|
    ensures BufferHolds(mem, b, n, img)
  {
    seq(4096 * n, o requires 0 <= o < 4096 * n => mem[b + o / 4096][o % 4096])
  }

  lemma BufferKept(mem: Memory, mem': Memory, b: nat, n: nat, img: seq<Byte>)
    requires BufferHolds(mem, b, n, img) && |mem'| == |mem|
    requires forall x :: x in Pages(b, n) && x < |mem| ==> mem'[x] == mem[x]
    ensures BufferHolds(mem', b, n, img)
  {
    forall o | 0 <= o < 4096 * n ensures mem'[b + o / 4096] == mem[b + o / 4096] {
      assert Within(b + o / 4096, b, n);
    }
  }

  /** The file system's copy of the file into the buffer, byte by byte. */
  method LoadBuffer(m: Machine, b: nat, n: nat, file: seq<Byte>)
    requires b + n <= |m.mem| && |file| <= 4096 * n
    modifies m`mem
    ensures |m.mem| == |old(m.mem)|
    ensures forall x :: 0 <= x < |m.mem| && x !in Pages(b, n) ==> m.mem[x] == old(m.mem)[x]
    ensures BufferBytes(m.mem, b, n)[..|file|] == file
  {
    var k := 0;
    while k < |file|
      invariant 0 <= k <= |file| && |m.mem| == |old(m.mem)|
      invariant forall x :: 0 <= x < |m.mem| && x !in Pages(b, n) ==> m.mem[x] == old(m.mem)[x]
      invariant forall o :: 0 <= o < k ==> m.mem[b + o / 4096][o % 4096] == file[o]
    {
      assert Within(b + k / 4096, b, n);
      m.mem := m.mem[b + k / 4096 := m.mem[b + k / 4096][k % 4096 := file[k]]];
      k := k + 1;
    }
  }

  method ReadBuffer(m: Machine, b: nat, o: nat, len: nat, ghost n: nat, ghost img: seq<Byte>) returns (s: seq<Byte>)
    requires BufferHolds(m.mem, b, n, img) && o + len <= |img|
    ensures s == img[o..o + len]
  {
    s := [];
    var k := 0;
    while k < len
      invariant 0 <= k <= len && s == img[o..o + k]
    {
      s := s + [m.mem[b + (o + k) / 4096][(o + k) % 4096]];
      k := k + 1;
    }
  }

  /** The clean-up loop over the buffer's pages. */
  method FreeBuffer(m: Machine, b: nat, n: nat)
    requires m.Valid() && b + n <= |m.mem| && 0 < b
    requires Pages(b, n) !! m.Free() && m.kernelRoot !in Pages(b, n)
    modifies m.pmm`freeMemory, m.pmm.bitmap
    ensures m.Valid() && m.Free() == old(m.Free()) + Pages(b, n)
  {
    hide Allocator.Free, Pages, Opened;
    ghost var free := m.Free();
    PagesNext(b, 0);
    var i := 0;
    while i < n
      invariant 0 <= i <= n && m.Valid() && m.Free() == free + Pages(b, i)
    {
      PagesNext(b, i);
      PageOfRun(b, n, i);
      m.FreeFrame(b + i);
      i := i + 1;
    }
  }

  lemma PageOfRun(b: nat, n: nat, i: nat)
    requires i < n
    ensures b + i in Pages(b, n) && b + i !in Pages(b, i)
  {
    assert Within(b + i, b, n);
  }

  // ----- accounting for frames

  /** Every frame that was free at the start is free, in the address space, in the buffer or lost. */
  ghost predicate Accounted(free: set<nat>, frames: set<nat>, buffer: set<nat>, lost: set<nat>, free0: set<nat>) {
    && free + frames + buffer + lost == free0
    && free !! frames && buffer !! free + frames && lost !! free + frames + buffer
  }

  /** The address space shows exactly these pages, all user and writable. */
  ghost predicate Shows(mem: Memory, root: nat, pages: map<nat, Page>) {
    && (forall v: nat :: v < USER_PAGES ==> (v in pages <==> Walk(mem, root, 4, v).Some?))
    && (forall v: nat :: v in pages ==> v < USER_PAGES && ShowsPage(mem, root, v, pages[v]))
  }

  ghost predicate ShowsPage(mem: Memory, root: nat, v: nat, page: Page) {
    var e := Walk(mem, root, 4, v);
    e.Some? && FrameOf(e.value) < |mem| && mem[FrameOf(e.value)] == page && Writable(e.value) && UserBit(e.value)
  }

  lemma ShowsNothing(mem: Memory, root: nat)
    requires EmptySpace(mem, root)
    ensures Shows(mem, root, map[])
  {
  }

  /** Mapping page v to frame p makes it show what the frame holds; other pages are as before. */
  lemma ShowsOneMore(mem: Memory, mem': Memory, root: nat, v: nat, p: nat, pages: map<nat, Page>, own: set<nat>)
    requires root < |mem| && Shows(mem, root, pages) && v < USER_PAGES && p < |mem'|
    requires Remapped(mem, mem', root, v, LeafEntry(p, USER_WRITE)) && Untouched(mem, mem', root, own)
    ensures Shows(mem', root, pages[v := mem'[p]])
  {
    hide Entry, Walk, LeafEntry;
    LeafUserWrite(p);
  }

  /** Writing the frame behind page v changes what v shows, and nothing else. */
  lemma ShowsRewritten(mem: Memory, root: nat, v: nat, page: Page, pages: map<nat, Page>)
    requires root < |mem| && Tree(mem, root, 4, 256) && Shows(mem, root, pages) && v in pages && v < USER_PAGES
    requires Walk(mem, root, 4, v).Some? && FrameOf(Walk(mem, root, 4, v).value) < |mem|
    ensures var mem' := mem[FrameOf(Walk(mem, root, 4, v).value) := page];
      Shows(mem', root, pages[v := page]) && Tree(mem', root, 4, 256) && Frames(mem', root) == Frames(mem, root)
  {
    hide Tree, Below, Entry, Walk, Idx;
    var mem' := mem[FrameOf(Walk(mem, root, 4, v).value) := page];
    UserIdx(v);
    PageWritten(mem, root, 4, 256, v, page);
    forall w: nat | w < USER_PAGES ensures Walk(mem', root, 4, w) == Walk(mem, root, 4, w) {
      UserIdx(w);
    }
    forall w: nat | w in pages && w != v ensures ShowsPage(mem', root, w, pages[w]) {
      UserIdx(w);
      PathWhole(v, w);
      LeavesApart(mem, root, 4, 256, v, w);
    }
  }

  lemma OpenedRewritten(mem: Memory, root: nat, v: nat, page: Page)
    requires root < |mem| && Tree(mem, root, 4, 256) && v < USER_PAGES && Opened(mem, root)
    requires Walk(mem, root, 4, v).Some? && FrameOf(Walk(mem, root, 4, v).value) < |mem|
    ensures Opened(mem[FrameOf(Walk(mem, root, 4, v).value) := page], root)
  {
    hide Tree, Below, Entry, Walk, Idx, UserPath;
    var mem' := mem[FrameOf(Walk(mem, root, 4, v).value) := page];
    UserIdx(v);
    forall w: nat | w < USER_PAGES ensures UserPath(mem', root, 4, w) {
      UserIdx(w);
      PageWrittenUser(mem, root, 4, 256, v, page, w);
    }
  }

  lemma LeafUserWrite(p: nat)
    ensures var e := LeafEntry(p, USER_WRITE); FrameOf(e) == p && Writable(e) && UserBit(e)
  {
  }

  /** What a load has done so far: the frames of the space start at root, the buffer of n frames at b
      holds img, of the frames free at the start those in `lost` have been dropped by mapping a page
      twice, the space shows `pages`, and `visits` are the pages mapped, in order. */
  datatype Load = Load(root: nat, b: nat, n: nat, img: seq<Byte>, free0: set<nat>, lost: set<nat>,
                       pages: map<nat, Page>, visits: seq<nat>)
  {
    /** The frames there are for pages and tables, once the buffer and the root are taken. */
    ghost function Budget(): int { |free0| - n - 1 }
  }

  ghost predicate Loading(m: Machine, l: Load)
    reads m, m.pmm, m.pmm.bitmap
  {
    && m.Valid() && m.Space(l.root) && Opened(m.mem, l.root) && BufferHolds(m.mem, l.b, l.n, l.img)
    && m.kernelRoot !in l.free0 && 0 !in l.free0
    && Accounted(m.Free(), Frames(m.mem, l.root), Pages(l.b, l.n), l.lost, l.free0)
    && Shows(m.mem, l.root, l.pages) && Tallied(l) && TablesFor(m.mem, l.root, l.visits)
    && |m.Free()| + Need(l.visits) == l.Budget()
  }

  /** Every mapping either shows a page of its own or has dropped a frame. */
  ghost predicate Tallied(l: Load) {
    |l.lost| + |l.pages| == |l.visits| && l.pages.Keys == Elems(l.visits)
  }

  /** l is the same load as l0, further on. */
  ghost predicate Onward(l0: Load, l: Load) {
    l == l0.(lost := l.lost, pages := l.pages, visits := l.visits)
  }

  /** One more mapping: page v shows `page`, and a frame may have been lost. */
  ghost predicate Took(l: Load, v: nat, page: Page, l': Load) {
    l' == l.(lost := l'.lost, pages := l.pages[v := page], visits := l.visits + [v])
  }

  /** How mapping page v ends, after those of vs, when there are `budget` frames for all of it. */
  ghost function Next(vs: seq<nat>, v: nat, budget: int): Status {
    if Need(vs + [v]) <= budget then Mapped else if Need(vs) == budget then OutOfMemory else OutOfTables
  }

  /** How mapping the pages of `plan` in order ends. */
  ghost function Fate(plan: seq<nat>, budget: int): Status {
    if Need(plan) <= budget then Mapped
    else if exists p :: 0 <= p < |plan| && Need(plan[..p]) == budget then OutOfMemory else OutOfTables
  }

  /** Where one mapping fails, the whole plan fails in the same way. */
  lemma FateStops(plan: seq<nat>, vs: seq<nat>, v: nat, budget: int)
    requires vs + [v] <= plan && Need(vs) <= budget && !Next(vs, v, budget).Mapped?
    ensures Fate(plan, budget) == Next(vs, v, budget)
  {
    hide Need;
    var p := |vs|;
    assert plan[..p] == vs && plan[..p + 1] == vs + [v];
    NeedGrows(plan, p + 1);
    forall q | 0 <= q < |plan| && q != p ensures Need(plan[..q]) != budget || Need(vs) == budget {
      if q < p {
        NeedGrows(plan[..p], q);
        assert plan[..p][..q] == plan[..q];
      } else {
        NeedGrows(plan[..q], p + 1);
        assert plan[..q][..p + 1] == plan[..p + 1];
      }
    }
  }

  /** Of the pages of `plan`, in order, as many as there are frames for. */
  ghost function Afforded(plan: seq<nat>, budget: int): (vs: seq<nat>)
    ensures vs <= plan
  {
    if plan == [] || Need(plan) <= budget then plan else Afforded(plan[..|plan| - 1], budget)
  }

  lemma AffordedAll(plan: seq<nat>, budget: int)
    requires Need(plan) <= budget
    ensures Afforded(plan, budget) == plan
  {
    hide Need;
  }

  /** Where one mapping fails, what comes before it is all there are frames for. */
  lemma {:induction false} AffordedStops(plan: seq<nat>, vs: seq<nat>, v: nat, budget: int)
    requires vs + [v] <= plan && Need(vs) <= budget && !Next(vs, v, budget).Mapped?
    ensures Afforded(plan, budget) == vs
    decreases |plan|
  {
    hide Need;
    var k := |plan| - 1;
    assert plan[..|vs| + 1] == vs + [v];
    NeedGrows(plan, |vs| + 1);
    if |vs| < k {
      AffordedStops(plan[..k], vs, v, budget);
    } else {
      assert plan[..k] == vs;
    }
  }

  lemma LostOneMore(mem: Memory, root: nat, v: nat, pages: map<nat, Page>, lost: set<nat>, page: Page, frames: set<nat>)
    requires Shows(mem, root, pages) && v < USER_PAGES && Replaced(mem, root, v) <= frames && frames !! lost
    ensures |lost + Replaced(mem, root, v)| + |pages[v := page]| == |lost| + |pages| + 1
  {
    hide Walk;
    var r := Replaced(mem, root, v);
    assert |lost + r| == |lost| + |r|;
    if v in pages {
      assert pages[v := page].Keys == pages.Keys;
      assert |pages[v := page]| == |pages[v := page].Keys| == |pages|;
    } else {
      assert pages[v := page].Keys == pages.Keys + {v};
      assert |pages[v := page]| == |pages[v := page].Keys| == |pages| + 1;
    }
  }

  // ----- one page

  /** memset and memcpy of one page of a segment into frame p. */
  method FillPage(m: Machine, p: nat, b: nat, s: Segment, v: nat, ghost n: nat, ghost img: seq<Byte>)
    requires p < |m.mem| && BufferHolds(m.mem, b, n, img) && p !in Pages(b, n)
    requires s.Within(|img|) && s.FirstPage() <= v
    modifies m`mem
    ensures m.mem == old(m.mem)[p := PageImage(img, s, v)]
  {
    m.ZeroFrame(p);
    ghost var cleared := m.mem;
    var current := 4096 * v;
    if current + 4096 > s.vaddr && current < s.vaddr + s.filesz {
      var start := if current < s.vaddr then s.vaddr % 4096 else 0;
      var src := s.offset + (current + start - s.vaddr);
      var size := 4096 - start;
      if current + start + size > s.vaddr + s.filesz {
        size := s.vaddr + s.filesz - (current + start);
      }
      assert current < s.vaddr ==> v == s.vaddr / 4096;
      BufferCleared(old(m.mem), cleared, p, b, n, img);
      CopyIn(m, p, start, b, src, size, n, img);
      assert m.mem[p] == PageImage(img, s, v);
    } else {
      assert ZeroPage() == PageImage(img, s, v);
    }
  }

  lemma BufferCleared(mem: Memory, mem': Memory, p: nat, b: nat, n: nat, img: seq<Byte>)
    requires p < |mem| && BufferHolds(mem, b, n, img) && p !in Pages(b, n) && mem' == mem[p := ZeroPage()]
    ensures BufferHolds(mem', b, n, img)
  {
    hide BufferHolds, Pages;
    BufferKept(mem, mem', b, n, img);
  }

  /** memcpy from the buffer into frame p. */
  method CopyIn(m: Machine, p: nat, start: nat, b: nat, src: nat, size: nat, ghost n: nat, ghost img: seq<Byte>)
    requires p < |m.mem| && BufferHolds(m.mem, b, n, img) && p !in Pages(b, n)
    requires start + size <= 4096 && (size == 0 || src + size <= |img|)
    modifies m`mem
    ensures |m.mem| == |old(m.mem)| && m.mem == old(m.mem)[p := m.mem[p]]
    ensures forall i :: 0 <= i < 4096 ==>
      m.mem[p][i] == if start <= i < start + size then img[src + (i - start)] else old(m.mem)[p][i]
  {
    ghost var mem0 := m.mem;
    var k := 0;
    while k < size
      invariant 0 <= k <= size && |m.mem| == |mem0| && m.mem == mem0[p := m.mem[p]]
      invariant forall i :: 0 <= i < 4096 ==>
        m.mem[p][i] == if start <= i < start + k then img[src + (i - start)] else mem0[p][i]
    {
      PageOfRun(b, n, (src + k) / 4096);
      var x := m.mem[b + (src + k) / 4096][(src + k) % 4096];
      m.mem := m.mem[p := m.mem[p][start + k := x]];
      k := k + 1;
    }
  }

  /** Frame arithmetic of one mapping: frame p joins the space, and what page v showed before, if
      anything, is lost. */
  lemma AccountedStep(free: set<nat>, frames: set<nat>, free1: set<nat>, frames1: set<nat>, gone: set<nat>,
                      p: nat, buffer: set<nat>, lost: set<nat>, free0: set<nat>)
    requires Accounted(free, frames, buffer, lost, free0 - {p}) && p in free0
    requires free1 + frames1 == free + frames - gone + {p} && gone <= frames && free1 !! frames1
    ensures Accounted(free1, frames1, buffer, lost + gone, free0)
  {
  }

  lemma AccountedAlloc(free: set<nat>, free1: set<nat>, frames: set<nat>, p: nat, buffer: set<nat>, lost: set<nat>, free0: set<nat>)
    requires Accounted(free, frames, buffer, lost, free0) && p in free && free1 == free - {p}
    ensures Accounted(free1, frames, buffer, lost, free0 - {p}) && p in free0
  {
  }

  lemma LoadingMeans(m: Machine, l: Load)
    requires Loading(m, l)
    ensures m.Valid() && m.Space(l.root) && Opened(m.mem, l.root) && BufferHolds(m.mem, l.b, l.n, l.img)
    ensures Accounted(m.Free(), Frames(m.mem, l.root), Pages(l.b, l.n), l.lost, l.free0)
    ensures Shows(m.mem, l.root, l.pages) && Tallied(l) && m.kernelRoot !in l.free0 && 0 !in l.free0
    ensures TablesFor(m.mem, l.root, l.visits) && |m.Free()| + Need(l.visits) == l.Budget()
  {
  }

  /** What a step needs to know of the load. */
  lemma LoadingValid(m: Machine, l: Load)
    requires Loading(m, l)
    ensures m.Valid() && l.root < |m.mem| && BufferHolds(m.mem, l.b, l.n, l.img)
    ensures Need(l.visits) <= l.Budget() && |m.Free()| == l.Budget() - Need(l.visits)
  {
  }

  lemma LoadingAgain(m: Machine, l: Load)
    requires m.Valid() && l.root < |m.mem| && Tree(m.mem, l.root, 4, 256) && Opened(m.mem, l.root)
    requires BufferHolds(m.mem, l.b, l.n, l.img) && m.kernelRoot !in l.free0 && 0 !in l.free0
    requires Accounted(m.Free(), Frames(m.mem, l.root), Pages(l.b, l.n), l.lost, l.free0)
    requires Shows(m.mem, l.root, l.pages) && Tallied(l) && TablesFor(m.mem, l.root, l.visits)
    requires |m.Free()| + Need(l.visits) == l.Budget()
    ensures Loading(m, l)
  {
    hide Tree, Below, Allocator.Free, Shows, BufferHolds, Pages, Frames, Opened, TablesFor, Need, Tallied;
  }

  lemma MapAccounts(mem: Memory, root: nat, v: nat, free: set<nat>, frames: set<nat>, free1: set<nat>, frames1: set<nat>,
                    p: nat, buffer: set<nat>, l: Load, page: Page)
    requires root < |mem| && Tree(mem, root, 4, 256) && frames == Frames(mem, root)
    requires Accounted(free, frames, buffer, l.lost, l.free0 - {p}) && p in l.free0 && free1 !! frames1
    requires free1 + frames1 == free + frames - Replaced(mem, root, v) + {p}
    requires Shows(mem, root, l.pages) && v < USER_PAGES && Tallied(l)
    ensures var lost := l.lost + Replaced(mem, root, v);
      && Accounted(free1, frames1, buffer, lost, l.free0)
      && Tallied(l.(lost := lost, pages := l.pages[v := page], visits := l.visits + [v]))
  {
    hide Tree, Below, Shows, Replaced, Frames, Accounted, Tallied;
    AccountedWithout(free, frames, buffer, l.lost, l.free0, p);
    ReplacedInside(mem, root, v);
    AccountedStep(free, frames, free1, frames1, Replaced(mem, root, v), p, buffer, l.lost, l.free0);
    TalliedMore(mem, root, v, l, page, frames);
  }

  lemma TalliedMore(mem: Memory, root: nat, v: nat, l: Load, page: Page, frames: set<nat>)
    requires Shows(mem, root, l.pages) && v < USER_PAGES && Tallied(l)
    requires Replaced(mem, root, v) <= frames && frames !! l.lost
    ensures Tallied(l.(lost := l.lost + Replaced(mem, root, v), pages := l.pages[v := page], visits := l.visits + [v]))
  {
    hide Shows, Replaced;
    LostOneMore(mem, root, v, l.pages, l.lost, page, frames);
    ElemsNext(l.visits, [v]);
    assert Elems([v]) == {v};
    hide Elems;
    assert l.pages[v := page].Keys == l.pages.Keys + {v};
  }

  /** vmm_map_page for a frame just allocated: page v now shows what the frame happens to hold. */
  method MapFresh(m: Machine, root: nat, v: nat, p: nat, ghost l: Load) returns (ghost l': Load)
    requires Loading(m, l.(free0 := l.free0 - {p})) && root == l.root && p in l.free0 && p < |m.mem|
    requires m.kernelRoot !in l.free0 && 0 !in l.free0 && v < USER_PAGES
    requires Lacking(l.visits, v) <= |m.Free()|
    modifies m`mem, m.pmm`freeMemory, m.pmm`last, m.pmm.bitmap
    ensures p < |m.mem| && p !in Pages(l.b, l.n) && Walk(m.mem, root, 4, v) == Some(LeafEntry(p, USER_WRITE))
    ensures Took(l, v, m.mem[p], l') && Loading(m, l')
  {
    hide Tree, Below, Allocator.Free, Entry, Walk, Shows, BufferHolds, Frames, Accounted, Remapped, Untouched, Missing,
      Pages, Replaced, Loading, LeafEntry, Opened, TablesFor, Furnished, Need, Lacking, Tallied;
    ghost var l0 := l.(free0 := l.free0 - {p});
    LoadingMeans(m, l0);
    ghost var mem0, free, frames, own := m.mem, m.Free(), Frames(m.mem, root), m.Own(root);
    AccountedWithout(free, frames, Pages(l.b, l.n), l.lost, l.free0, p);
    LackingNow(m.mem, root, l.visits, v);
    TalliedAlike(l0, l);
    m.MapPage(root, v, p, USER_WRITE);
    l' := l.(lost := l.lost + Replaced(mem0, root, v), pages := l.pages[v := m.mem[p]], visits := l.visits + [v]);
    MapAccounts(mem0, root, v, free, frames, m.Free(), Frames(m.mem, root), p, Pages(l.b, l.n), l, m.mem[p]);
    BufferUntouched(mem0, m.mem, root, own, l.b, l.n, l.img);
    ShowsOneMore(mem0, m.mem, root, v, p, l.pages, own);
    RemappedHere(mem0, m.mem, root, v, LeafEntry(p, USER_WRITE));
    TablesForNext(mem0, m.mem, root, l.visits, v);
    NeedNext(l.visits, v);
    assert |l0.free0| == |l.free0| - 1;
    LoadingAgain(m, l');
  }

  lemma TalliedAlike(l: Load, k: Load)
    requires Tallied(l) && k.lost == l.lost && k.pages == l.pages && k.visits == l.visits
    ensures Tallied(k)
  {
  }

  lemma RemappedHere(mem: Memory, mem': Memory, root: nat, v: nat, e: nat)
    requires Remapped(mem, mem', root, v, e) && v < USER_PAGES
    ensures Walk(mem', root, 4, v) == Some(e)
  {
  }

  /** The load goes on after the frame behind page v has been written. */
  lemma LoadingRewritten(m: Machine, mem1: Memory, l: Load, v: nat, page: Page, p: nat)
    requires p < |mem1| && m.mem == mem1[p := page] && m.Valid() && p !in Pages(l.b, l.n)
    requires BufferHolds(mem1, l.b, l.n, l.img)
    requires m.kernelRoot !in l.free0 && 0 !in l.free0
    requires l.root < |mem1| && Tree(mem1, l.root, 4, 256) && Opened(mem1, l.root)
    requires Accounted(m.Free(), Frames(mem1, l.root), Pages(l.b, l.n), l.lost, l.free0)
    requires Shows(mem1, l.root, l.pages) && v in l.pages && Tallied(l) && TablesFor(mem1, l.root, l.visits)
    requires |m.Free()| + Need(l.visits) == l.Budget()
    requires v < USER_PAGES && Walk(mem1, l.root, 4, v) == Some(LeafEntry(p, USER_WRITE))
    ensures Loading(m, l.(pages := l.pages[v := page]))
  {
    hide Tree, Below, Allocator.Free, Entry, Walk, Shows, BufferHolds, Frames, Accounted, Pages, Loading, LeafEntry, Opened,
      TablesFor, Need;
    LeafUserWrite(p);
    ShowsRewritten(mem1, l.root, v, page, l.pages);
    OpenedRewritten(mem1, l.root, v, page);
    TablesRewritten(mem1, l.root, v, page, l.visits);
    BufferKept(mem1, m.mem, l.b, l.n, l.img);
    SameSize(l.pages, v, page);
    LoadingAgain(m, l.(pages := l.pages[v := page]));
  }

  lemma TablesRewritten(mem: Memory, root: nat, v: nat, page: Page, vs: seq<nat>)
    requires root < |mem| && Tree(mem, root, 4, 256) && v < USER_PAGES && TablesFor(mem, root, vs)
    requires Walk(mem, root, 4, v).Some? && FrameOf(Walk(mem, root, 4, v).value) < |mem|
    ensures TablesFor(mem[FrameOf(Walk(mem, root, 4, v).value) := page], root, vs)
  {
    hide Tree, Below, Entry, Walk, Idx, Missing, Lacking;
    var mem' := mem[FrameOf(Walk(mem, root, 4, v).value) := page];
    UserIdx(v);
    forall w: nat | w < USER_PAGES ensures Missing(mem', root, 4, w) == Lacking(vs, w) {
      UserIdx(w);
      PageWrittenMissing(mem, root, 4, 256, v, page, w);
    }
  }

  lemma SameSize(pages: map<nat, Page>, v: nat, page: Page)
    requires v in pages
    ensures |pages[v := page]| == |pages| && pages[v := page].Keys == pages.Keys
  {
    assert pages[v := page].Keys == pages.Keys;
    assert |pages[v := page].Keys| == |pages[v := page]| && |pages.Keys| == |pages|;
  }

  lemma Overwritten(pages: map<nat, Page>, v: nat, x: Page, page: Page)
    ensures v in pages[v := x] && pages[v := x][v := page] == pages[v := page]
  {
  }

  lemma OverlayNext(pages: map<nat, Page>, more: map<nat, Page>, v: nat, page: Page)
    ensures Over(pages, more)[v := page] == Over(pages, more[v := page]) && Over(pages, map[]) == pages
  {
  }

  lemma AccountedWithout(free: set<nat>, frames: set<nat>, buffer: set<nat>, lost: set<nat>, free0: set<nat>, p: nat)
    requires Accounted(free, frames, buffer, lost, free0 - {p})
    ensures p !in free + frames && p !in buffer && frames !! lost && buffer !! free + frames
  {
  }

  /** Allocation of a frame and its mapping at page v, for segments and stack alike. How it ends is a
      matter of what has been mapped before and of the frames there were for it. */
  method AllocAndMap(m: Machine, root: nat, v: nat, ghost l: Load) returns (status: Status, p: nat, ghost l': Load)
    requires Loading(m, l) && root == l.root && v < USER_PAGES
    modifies m`mem, m.pmm`freeMemory, m.pmm`last, m.pmm.bitmap
    ensures m.Valid() && p < |m.mem| && status == Next(l.visits, v, l.Budget())
    ensures status.Mapped? ==> p !in Pages(l.b, l.n) && Walk(m.mem, root, 4, v) == Some(LeafEntry(p, USER_WRITE))
    ensures status.Mapped? ==> Took(l, v, m.mem[p], l') && Loading(m, l')
    ensures status.OutOfMemory? ==> l' == l && Loading(m, l)
    ensures status.OutOfTables? ==>
      p in old(m.Free()) && m.Free() == old(m.Free()) - {p} && m.mem == old(m.mem) && |m.Free()| < 3
  {
    hide Tree, Below, Allocator.Free, Entry, Walk, Shows, BufferHolds, Frames, Accounted, Missing, Pages, LeafEntry, Opened,
      TablesFor, Need, Lacking, Tallied;
    LoadingValid(m, l);
    NeedNext(l.visits, v);
    LackingNow(m.mem, root, l.visits, v);
    ghost var free := m.Free();
    p := m.AllocFrame();
    l' := l;
    if p == 0 { return OutOfMemory, p, l; }
    assert |m.Free()| == |free| - 1;
    if m.pmm.freeMemory / PAGE < Missing(m.mem, root, 4, v) { return OutOfTables, p, l; }
    AccountedAlloc(free, m.Free(), Frames(m.mem, root), p, Pages(l.b, l.n), l.lost, l.free0);
    assert |l.free0 - {p}| == |l.free0| - 1;
    TalliedAlike(l, l.(free0 := l.free0 - {p}));
    l' := MapFresh(m, root, v, p, l);
    status := Mapped;
  }

  /** FillPage for the frame behind a mapped page. */
  method FillMapped(m: Machine, b: nat, s: Segment, v: nat, p: nat, ghost l: Load)
    requires Loading(m, l) && b == l.b && v in l.pages && p < |m.mem| && p !in Pages(l.b, l.n)
    requires v < USER_PAGES && Walk(m.mem, l.root, 4, v) == Some(LeafEntry(p, USER_WRITE))
    requires s.Within(|l.img|) && s.FirstPage() <= v
    modifies m`mem
    ensures m.Valid() && Loading(m, l.(pages := l.pages[v := PageImage(l.img, s, v)]))
  {
    hide Tree, Below, Allocator.Free, Entry, Walk, Shows, BufferHolds, PageImage, Frames, Accounted, Pages, Loading, LeafEntry,
      Opened, TablesFor, Need, Tallied;
    ghost var mem1 := m.mem;
    LoadingMeans(m, l);
    FillPage(m, p, b, s, v, l.n, l.img);
    LoadingRewritten(m, mem1, l, v, PageImage(l.img, s, v), p);
  }

  /** The body of the page loop: allocate, map, clear, copy. */
  method LoadPage(m: Machine, root: nat, b: nat, s: Segment, v: nat, ghost l: Load)
    returns (status: Status, ghost l': Load)
    requires Loading(m, l) && root == l.root && b == l.b
    requires s.Within(|l.img|) && s.FirstPage() <= v < USER_PAGES
    modifies m`mem, m.pmm`freeMemory, m.pmm`last, m.pmm.bitmap
    ensures m.Valid() && status == Next(l.visits, v, l.Budget())
    ensures status.OutOfTables? ==> |m.Free()| < 3
    ensures status.Mapped? ==> Took(l, v, PageImage(l.img, s, v), l') && Loading(m, l')
    ensures status.OutOfMemory? ==> l' == l && Loading(m, l)
  {
    hide Tree, Below, Allocator.Free, Entry, Walk, Shows, BufferHolds, PageImage, Frames, Accounted, Missing, Pages, Loading,
      LeafEntry, Opened, Next;
    var p;
    status, p, l' := AllocAndMap(m, root, v, l);
    if status.Mapped? {
      Overwritten(l.pages, v, m.mem[p], PageImage(l.img, s, v));
      FillMapped(m, b, s, v, p, l');
      l' := l'.(pages := l'.pages[v := PageImage(l.img, s, v)]);
    }
  }

  lemma ReplacedInside(mem: Memory, root: nat, v: nat)
    requires root < |mem| && Tree(mem, root, 4, 256) && v < USER_PAGES
    ensures Replaced(mem, root, v) <= Frames(mem, root)
  {
    UserIdx(v);
    LeafInTree(mem, root, 4, 256, v);
  }

  lemma BufferUntouched(mem: Memory, mem': Memory, root: nat, own: set<nat>, b: nat, n: nat, img: seq<Byte>)
    requires Untouched(mem, mem', root, own) && BufferHolds(mem, b, n, img) && Pages(b, n) !! own
    ensures BufferHolds(mem', b, n, img)
  {
    hide Walk, Entry;
    BufferKept(mem, mem', b, n, img);
  }

  // ----- segments

  /** The loop over the pages of one segment. It stops at the first page for which there are not frames
      enough; j pages have been loaded. */
  method LoadSegment(m: Machine, root: nat, b: nat, s: Segment, ghost l: Load, ghost size: nat)
    returns (status: Status, ghost l': Load, ghost j': nat)
    requires Loading(m, l) && root == l.root && b == l.b
    requires s.Loads() && SegmentSound(s, size) && size <= |l.img|
    modifies m`mem, m.pmm`freeMemory, m.pmm`last, m.pmm.bitmap
    ensures m.Valid() && j' <= s.PageCount()
    ensures Partly(l, s, j', l') && Need(l'.visits) <= l.Budget()
    ensures if j' == s.PageCount() then status.Mapped? else
              !status.Mapped? && status == Next(l'.visits, s.FirstPage() + j', l.Budget())
    ensures status.OutOfTables? ==> |m.Free()| < 3
    ensures !status.OutOfTables? ==> Loading(m, l')
  {
    hide Loading, PageImage, Missing, SegmentPages, BufferHolds, Shows, Accounted, Tree, Below, Frames, Pages,
      Allocator.Free, Opened, Partly, Need, Next, Load.Budget;
    PartlyNext(l, s, 0, l, l);
    LoadingValid(m, l);
    l', j' := l, 0;
    var count := (s.memsz + s.vaddr % 4096 + 4095) / 4096;
    var j := 0;
    while j < count
      invariant 0 <= j <= count && j' == j && m.Valid() && Partly(l, s, j, l') && Loading(m, l')
      invariant l'.root == l.root && l'.b == l.b && l'.img == l.img && l'.Budget() == l.Budget()
      invariant Need(l'.visits) <= l.Budget()
    {
      var v := s.vaddr / 4096 + j;
      PageInUserHalf(s, size, j);
      ghost var before := l';
      status, l' := LoadPage(m, root, b, s, v, l');
      if !status.Mapped? {
        NextStatus(before.visits, v, before.Budget());
        l' := before;
        return;
      }
      PartlyNext(l, s, j, before, l');
      SameBudget(before, l');
      LoadingValid(m, l');
      j, j' := j + 1, j' + 1;
    }
    status := Mapped;
  }

  /** l' is l with the first j pages of a segment loaded. */
  ghost predicate Partly(l: Load, s: Segment, j: nat, l': Load) {
    s.Within(|l.img|) &&
    l' == l.(lost := l'.lost, pages := Over(l.pages, SegmentPages(l.img, s, j)), visits := l.visits + PageList(s.FirstPage(), j))
  }

  lemma PartlyNext(l: Load, s: Segment, j: nat, k: Load, k': Load)
    requires s.Within(|l.img|)
    ensures Partly(l, s, 0, l)
    ensures Partly(l, s, j, k) && Took(k, s.FirstPage() + j, PageImage(l.img, s, s.FirstPage() + j), k') ==>
      Partly(l, s, j + 1, k')
  {
    hide PageImage;
    var v := s.FirstPage() + j;
    SegmentPagesNext(l.img, s, j);
    OverlayNext(l.pages, SegmentPages(l.img, s, j), v, PageImage(l.img, s, v));
    assert l.visits + PageList(s.FirstPage(), 0) == l.visits;
    assert PageList(s.FirstPage(), j + 1) == PageList(s.FirstPage(), j) + [v];
    assert l.visits + PageList(s.FirstPage(), j) + [v] == l.visits + (PageList(s.FirstPage(), j) + [v]);
  }

  lemma SameBudget(l: Load, l': Load)
    requires l'.free0 == l.free0 && l'.n == l.n
    ensures l'.Budget() == l.Budget()
  {
  }

  lemma SegmentPagesNext(img: seq<Byte>, s: Segment, j: nat)
    requires s.Within(|img|)
    ensures SegmentPages(img, s, 0) == map[]
    ensures SegmentPages(img, s, j + 1) == SegmentPages(img, s, j)[s.vaddr / 4096 + j := PageImage(img, s, s.vaddr / 4096 + j)]
  {
  }

  lemma PageInUserHalf(s: Segment, size: nat, j: nat)
    requires s.Loads() && SegmentSound(s, size) && j < s.PageCount()
    ensures s.vaddr / 4096 + j < USER_PAGES
  {
    assert s.vaddr == 4096 * (s.vaddr / 4096) + s.vaddr % 4096;
  }

  /** The load has come past the first i program headers. */
  ghost predicate Past(l0: Load, img: seq<Byte>, size: nat, i: nat, l: Load)
    requires 64 <= |img| && size <= |img| && HeadersFit(img, size) && FileSound(img, size) && i <= Reach(img, size)
  {
    && l0.img == img && l0.visits == []
    && l == l0.(lost := l.lost, pages := Image(img, size, i), visits := Visits(img, size, i))
  }

  /** What may come after i headers: the next is skipped, or its pages come on top. */
  lemma PastNext(l0: Load, img: seq<Byte>, size: nat, i: nat, l: Load, j: nat, l': Load)
    requires 64 <= |img| && size <= |img| && HeadersFit(img, size) && FileSound(img, size) && i < Reach(img, size)
    requires Past(l0, img, size, i, l)
    ensures SegmentSound(SegmentAt(img, size, i), size)
    ensures !SegmentAt(img, size, i).Loads() ==> Past(l0, img, size, i + 1, l)
    ensures var s := SegmentAt(img, size, i);
      s.Loads() && Partly(l, s, j, l') && j == s.PageCount() ==> Past(l0, img, size, i + 1, l')
  {
    hide Image, Visits, SegmentAt, HeadersFit, FileSound, PhNum, Reach, Over, SegmentPages, Segment.PageCount;
    ImageNext(img, size, i);
  }

  /** The pages the loader sets out to map: those of all headers, or of those before the first that it
      refuses. */
  ghost function Plan(img: seq<Byte>, size: nat): seq<nat>
    requires 64 <= |img| && size <= |img| && HeadersFit(img, size)
  {
    Visits(img, size, Reach(img, size))
  }

  /** A stop among the pages of header i is a stop of the plan. */
  lemma PlanStops(l0: Load, img: seq<Byte>, size: nat, i: nat, l: Load, j: nat, l': Load, budget: int)
    requires 64 <= |img| && size <= |img| && HeadersFit(img, size) && FileSound(img, size) && i < Reach(img, size)
    requires Past(l0, img, size, i, l)
    requires var s := SegmentAt(img, size, i);
      s.Loads() && j < s.PageCount() && Partly(l, s, j, l')
    requires Need(l'.visits) <= budget
    requires !Next(l'.visits, SegmentAt(img, size, i).FirstPage() + j, budget).Mapped?
    ensures Fate(Plan(img, size), budget) == Next(l'.visits, SegmentAt(img, size, i).FirstPage() + j, budget)
    ensures l'.visits == Afforded(Plan(img, size), budget)
  {
    hide Image, Visits, SegmentAt, HeadersFit, FileSound, PhNum, Over, SegmentPages, Segment.PageCount, Reach, Need, Next,
      Fate, Segment.FirstPage, Afforded;
    var s, v := SegmentAt(img, size, i), SegmentAt(img, size, i).FirstPage() + j;
    ImageNext(img, size, i);
    VisitsPrefix(img, size, i + 1, Reach(img, size));
    var list := PageList(s.FirstPage(), s.PageCount());
    assert PageList(s.FirstPage(), j) + [v] == list[..j + 1];
    assert l'.visits + [v] == l.visits + list[..j + 1] <= Visits(img, size, i + 1);
    assert l'.visits + [v] <= Plan(img, size);
    FateStops(Plan(img, size), l'.visits, v, budget);
    AffordedStops(Plan(img, size), l'.visits, v, budget);
  }

  method ReadHeader(m: Machine, b: nat, phoff: nat, i: nat, ghost n: nat, ghost img: seq<Byte>, ghost size: nat)
    returns (s: Segment)
    requires BufferHolds(m.mem, b, n, img) && 64 <= |img| && size <= |img| && HeadersFit(img, size)
    requires i < PhNum(img) && phoff == PhOff(img)
    ensures s == SegmentAt(img, size, i)
  {
    hide HeadersFit, PhNum, PhOff, ParseSegment, SegmentAt, BufferHolds;
    HeaderIs(img, size, i);
    var header := ReadBuffer(m, b, phoff + i * PHDR_SIZE, PHDR_SIZE, n, img);
    s := ParseSegment(header);
  }

  /** One program header: skipped, refused, or loaded page by page. */
  method LoadHeader(m: Machine, root: nat, b: nat, phoff: nat, i: nat, ghost l0: Load, ghost l: Load, ghost size: nat)
    returns (status: Status, ghost l': Load)
    requires 64 <= |l.img| && size <= |l.img| && HeadersFit(l.img, size) && FileSound(l.img, size)
    requires i < PhNum(l.img) && phoff == PhOff(l.img) && i <= Reach(l.img, size) && Past(l0, l.img, size, i, l)
    requires Loading(m, l) && root == l.root && b == l.b
    modifies m`mem, m.pmm`freeMemory, m.pmm`last, m.pmm.bitmap
    ensures m.Valid() && Onward(l0, l')
    ensures status.BadSegment? <==> i == Reach(l.img, size)
    ensures status.BadSegment? ==> l' == l
    ensures status.Mapped? ==> i < Reach(l.img, size) && Past(l0, l.img, size, i + 1, l')
    ensures status.OutOfMemory? || status.OutOfTables? ==>
      status == Fate(Plan(l.img, size), l0.Budget()) && l'.visits == Afforded(Plan(l.img, size), l0.Budget())
    ensures status.OutOfTables? ==> |m.Free()| < 3
    ensures !status.OutOfTables? ==> Loading(m, l')
  {
    hide Loading, Past, Partly, HeadersFit, FileSound, PhNum, PhOff, SegmentAt, BufferHolds, Shows, Accounted,
      Tree, Below, Frames, Pages, Allocator.Free, Segment.PageCount, Opened, Fate, Next, Plan, Need, Reach, Load.Budget, Afforded;
    LoadingValid(m, l);
    PastSame(l0, l.img, size, i, l);
    RefusedNow(l.img, size, i);
    l' := l;
    var s := ReadHeader(m, b, phoff, i, l.n, l.img, size);
    if s.kind == PT_LOAD {
      if s.vaddr >= USER_END { return BadSegment, l; }
      SoundAt(l.img, size, i);
      ghost var j;
      status, l', j := LoadSegment(m, root, b, s, l, size);
      PartlySame(l, s, j, l');
      if status.Mapped? {
        PastNext(l0, l.img, size, i, l, j, l');
      } else {
        PlanStops(l0, l.img, size, i, l, j, l', l0.Budget());
        NextStatus(l'.visits, s.FirstPage() + j, l0.Budget());
      }
    } else {
      PastNext(l0, l.img, size, i, l, 0, l);
      status := Mapped;
    }
  }

  lemma NextStatus(vs: seq<nat>, v: nat, budget: int)
    ensures !Next(vs, v, budget).BadSegment?
  {
  }

  lemma RefusedNow(img: seq<Byte>, size: nat, i: nat)
    requires 64 <= |img| && size <= |img| && HeadersFit(img, size) && i < PhNum(img) && i <= Reach(img, size)
    ensures Refused(SegmentAt(img, size, i)) <==> i == Reach(img, size)
  {
  }

  lemma PastSame(l0: Load, img: seq<Byte>, size: nat, i: nat, l: Load)
    requires 64 <= |img| && size <= |img| && HeadersFit(img, size) && FileSound(img, size) && i <= Reach(img, size)
    requires Past(l0, img, size, i, l)
    ensures Onward(l0, l) && l.img == img
    ensures l.Budget() == l0.Budget() && l.visits == Visits(img, size, i) && l.pages == Image(img, size, i)
  {
  }

  lemma PartlySame(l: Load, s: Segment, j: nat, l': Load)
    requires Partly(l, s, j, l')
    ensures Onward(l, l') && l'.Budget() == l.Budget()
  {
  }

  /** How the loop over the program headers ends: as its plan does, or at the header it refuses. */
  ghost function SegmentsEnd(img: seq<Byte>, size: nat, budget: int): Status
    requires 64 <= |img| && size <= |img| && HeadersFit(img, size)
  {
    var f := Fate(Plan(img, size), budget);
    if f.Mapped? && Reach(img, size) < PhNum(img) then BadSegment else f
  }

  lemma EndReached(l0: Load, img: seq<Byte>, size: nat, i: nat, l: Load)
    requires 64 <= |img| && size <= |img| && HeadersFit(img, size) && FileSound(img, size) && i == Reach(img, size)
    requires Past(l0, img, size, i, l) && Need(l.visits) <= l0.Budget()
    ensures SegmentsEnd(img, size, l0.Budget()) == if i < PhNum(img) then BadSegment else Mapped
    ensures l.visits == Afforded(Plan(img, size), l0.Budget())
  {
    hide Image, Visits, HeadersFit, FileSound, PhNum, Reach, Need;
  }

  lemma EndStopped(img: seq<Byte>, size: nat, budget: int, status: Status)
    requires 64 <= |img| && size <= |img| && HeadersFit(img, size) && FileSound(img, size)
    requires status == Fate(Plan(img, size), budget) && !status.Mapped?
    ensures SegmentsEnd(img, size, budget) == status
  {
    hide HeadersFit, FileSound, PhNum, Reach, Need, Fate, Visits;
  }

  /** The loop over the program headers. */
  method LoadSegments(m: Machine, root: nat, b: nat, phoff: nat, phnum: nat, ghost l0: Load, ghost size: nat)
    returns (status: Status, ghost l: Load)
    requires 64 <= |l0.img| && size <= |l0.img| && HeadersFit(l0.img, size) && FileSound(l0.img, size)
    requires Loading(m, l0) && root == l0.root && b == l0.b && l0.pages == map[] && l0.visits == []
    requires phoff == PhOff(l0.img) && phnum == PhNum(l0.img)
    modifies m`mem, m.pmm`freeMemory, m.pmm`last, m.pmm.bitmap
    ensures m.Valid() && Onward(l0, l)
    ensures status == SegmentsEnd(l0.img, size, l0.Budget())
    ensures status.OutOfTables? ==> |m.Free()| < 3
    ensures status.Mapped? ==> Reach(l0.img, size) == phnum && Past(l0, l0.img, size, phnum, l)
    ensures !status.OutOfTables? ==> Loading(m, l) && l.visits == Afforded(Plan(l0.img, size), l0.Budget())
  {
    hide Loading, Past, HeadersFit, FileSound, PhNum, PhOff, Tree, Below, Frames, Allocator.Free, Opened, Plan, Fate, Visits,
      Image, Reach, Need, Load.Budget, SegmentsEnd, SegmentAt, Afforded;
    ghost var img := l0.img;
    l := l0;
    PastStart(l0, size);
    LoadingValid(m, l);
    var i := 0;
    while i < phnum
      invariant 0 <= i <= phnum && m.Valid() && Loading(m, l) && Onward(l0, l)
      invariant i <= Reach(img, size) && Past(l0, img, size, i, l)
    {
      PastSame(l0, img, size, i, l);
      LoadingValid(m, l);
      if i == Reach(img, size) {
        EndReached(l0, img, size, i, l);
      }
      status, l := LoadHeader(m, root, b, phoff, i, l0, l, size);
      if !status.Mapped? {
        if !status.BadSegment? {
          EndStopped(img, size, l0.Budget(), status);
        }
        return;
      }
      i := i + 1;
    }
    PastSame(l0, img, size, i, l);
    LoadingValid(m, l);
    EndReached(l0, img, size, i, l);
    status := Mapped;
  }

  lemma PastStart(l0: Load, size: nat)
    requires 64 <= |l0.img| && size <= |l0.img| && HeadersFit(l0.img, size) && FileSound(l0.img, size)
    requires l0.pages == map[] && l0.visits == []
    ensures Past(l0, l0.img, size, 0, l0)
  {
  }

  lemma HeaderIs(img: seq<Byte>, size: nat, i: nat)
    requires 64 <= |img| && size <= |img| && HeadersFit(img, size) && i < PhNum(img)
    ensures PhOff(img) + i * PHDR_SIZE + PHDR_SIZE <= size
    ensures SegmentAt(img, size, i) == ParseSegment(img[PhOff(img) + i * PHDR_SIZE..PhOff(img) + i * PHDR_SIZE + PHDR_SIZE])
  {
    HeaderWithin(img, size, i);
  }

  // ----- the stack

  /** A page with the arguments and their terminator at its end. */
  function ArgsPage(page: Page, args: seq<Byte>): (q: Page)
    requires |args| + 1 <= 4096
  {
    page[..4095 - |args|] + args + [0]
  }

  method WriteArgs(m: Machine, p: nat, args: seq<Byte>)
    requires p < |m.mem| && |args| + 1 <= 4096
    modifies m`mem
    ensures m.mem == old(m.mem)[p := ArgsPage(old(m.mem)[p], args)]
  {
    ghost var mem0 := m.mem;
    var len := |args| + 1;
    var i := 0;
    while i < len
      invariant 0 <= i <= len
      invariant |m.mem| == |mem0| && forall x :: 0 <= x < |mem0| && x != p ==> m.mem[x] == mem0[x]
      invariant forall o | 0 <= o < 4096 ::
        m.mem[p][o] == if 4096 - len <= o < 4096 - len + i then (args + [0])[o - (4096 - len)] else mem0[p][o]
    {
      m.mem := m.mem[p := m.mem[p][4096 - len + i := if i < |args| then args[i] else 0]];
      i := i + 1;
    }
    assert m.mem[p] == ArgsPage(mem0[p], args);
  }

  /** WriteArgs for the frame behind the stack page. */
  method ArgsMapped(m: Machine, args: seq<Byte>, p: nat, ghost l: Load)
    requires Loading(m, l) && p < |m.mem| && p !in Pages(l.b, l.n)
    requires STACK_PAGE in l.pages && |args| + 1 <= 4096
    requires Walk(m.mem, l.root, 4, STACK_PAGE) == Some(LeafEntry(p, USER_WRITE))
    modifies m`mem
    ensures m.Valid() && p < |old(m.mem)|
    ensures Loading(m, l.(pages := l.pages[STACK_PAGE := ArgsPage(old(m.mem)[p], args)]))
  {
    hide Tree, Below, Allocator.Free, Entry, Walk, Shows, BufferHolds, ArgsPage, Frames, Accounted, Pages, Loading, LeafEntry,
      Opened, TablesFor, Need, Tallied;
    ghost var mem1 := m.mem;
    LoadingMeans(m, l);
    WriteArgs(m, p, args);
    LoadingRewritten(m, mem1, l, STACK_PAGE, ArgsPage(mem1[p], args), p);
  }

  /** The stack page: allocated and mapped, not cleared; the arguments, if any, at its top. */
  method SetUpStack(m: Machine, root: nat, args: Option<seq<Byte>>, ghost l: Load)
    returns (status: Status, rsp: nat, ghost l': Load, ghost stack: Page)
    requires Loading(m, l) && root == l.root
    requires args.Some? ==> |args.value| + 1 <= 4096
    modifies m`mem, m.pmm`freeMemory, m.pmm`last, m.pmm.bitmap
    ensures m.Valid() && status == Next(l.visits, STACK_PAGE, l.Budget())
    ensures status.OutOfTables? ==> |m.Free()| < 3
    ensures status.OutOfMemory? ==> l' == l && Loading(m, l)
    ensures status.Mapped? ==> Took(l, STACK_PAGE, stack, l') && Loading(m, l') && StackHolds(stack, rsp, args)
  {
    hide Loading, Missing, Tree, Below, Frames, Pages, Allocator.Free, BufferHolds, Shows, Accounted, ArgsPage, Walk, LeafEntry,
      StackHolds, Opened, Next, Need, Load.Budget;
    rsp, stack := 0x7000_0000_1000, ZeroPage();
    var p;
    status, p, l' := AllocAndMap(m, root, STACK_PAGE, l);
    if !status.Mapped? { return; }
    stack := m.mem[p];
    NoArgs(stack);
    if args.Some? {
      rsp := rsp - (|args.value| + 1);
      Overwritten(l.pages, STACK_PAGE, stack, ArgsPage(stack, args.value));
      SomeArgs(stack, args.value);
      ArgsMapped(m, args.value, p, l');
      stack := ArgsPage(stack, args.value);
      l' := l'.(pages := l'.pages[STACK_PAGE := stack]);
    }
  }

  lemma NoArgs(stack: Page)
    ensures StackHolds(stack, 0x7000_0000_1000, None)
  {
  }

  lemma SomeArgs(was: Page, args: seq<Byte>)
    requires |args| + 1 <= 4096
    ensures StackHolds(ArgsPage(was, args), 0x7000_0000_1000 - (|args| + 1), Some(args))
  {
  }

  /** From rsp to the top of the stack page lie the arguments and a NUL, or nothing if there are none. */
  ghost predicate StackHolds(stack: Page, rsp: nat, args: Option<seq<Byte>>) {
    if args.None? then rsp == 4096 * (STACK_PAGE + 1)
    else
      && |args.value| + 1 <= 4096 && rsp == 4096 * (STACK_PAGE + 1) - (|args.value| + 1)
      && stack[rsp - 4096 * STACK_PAGE..] == args.value + [0]
  }

  // ----- exec and exit

  /** The clean-up of every failure after the address space exists: buffer and space are given back. */
  method Abandon(m: Machine, root: nat, b: nat, n: nat, ghost l: Load)
    requires Loading(m, l) && root == l.root && b == l.b && n == l.n >= 1
    modifies m.pmm`freeMemory, m.pmm.bitmap
    ensures m.Valid() && m.Free() == l.free0 - l.lost && l.lost <= l.free0
  {
    hide Tree, Below, Allocator.Free, Entry, Shows, Frames, Pages, Accounted, Loading, BufferHolds, Opened;
    LoadingReleasable(m, l);
    ghost var free := m.Free();
    FreeBuffer(m, b, n);
    ghost var free1 := m.Free();
    m.FreePagemap(root);
    AllBack(free, free1, m.Free(), Pages(b, n), Frames(m.mem, root), l.free0 - l.lost);
  }

  lemma AllBack(free: set<nat>, free1: set<nat>, free2: set<nat>, buffer: set<nat>, frames: set<nat>, all: set<nat>)
    requires free1 == free + buffer && free2 == free1 + frames && free + buffer + frames == all
    ensures free2 == all && free1 + frames == all
  {
  }

  lemma LoadingReleasable(m: Machine, l: Load)
    requires Loading(m, l) && l.n >= 1
    ensures m.Valid() && m.Space(l.root) && Opened(m.mem, l.root)
    ensures l.root != 0 && l.b + l.n <= |m.mem| && Shows(m.mem, l.root, l.pages)
    ensures CanRelease(m.Free(), Frames(m.mem, l.root), l.b, l.n, l.lost, l.free0, m.kernelRoot)
  {
    hide Tree, Below, Allocator.Free, Entry, Shows, Frames, Pages, Accounted, Loading, CanRelease, Opened, TablesFor, Need, Tallied;
    LoadingMeans(m, l);
    AccountedGone(m.Free(), Frames(m.mem, l.root), l.b, l.n, l.lost, l.free0, m.kernelRoot);
    RootInFrames(m.mem, l.root);
  }

  lemma RootInFrames(mem: Memory, root: nat)
    requires root < |mem|
    ensures root in Frames(mem, root)
  {
  }

  /** The buffer can be given back and then the space, leaving everything but what is lost. */
  ghost predicate CanRelease(free: set<nat>, frames: set<nat>, b: nat, n: nat, lost: set<nat>, free0: set<nat>, kernelRoot: nat) {
    && 0 < b && Pages(b, n) !! free && kernelRoot !in Pages(b, n) && frames !! free + Pages(b, n)
    && free + Pages(b, n) + frames == free0 - lost && lost <= free0
  }

  lemma AccountedGone(free: set<nat>, frames: set<nat>, b: nat, n: nat, lost: set<nat>, free0: set<nat>, kernelRoot: nat)
    requires Accounted(free, frames, Pages(b, n), lost, free0) && 0 !in free0 && kernelRoot !in free0 && n >= 1
    ensures CanRelease(free, frames, b, n, lost, free0, kernelRoot)
  {
    hide Pages;
    PageOfRun(b, n, 0);
    assert b in Pages(b, n);
  }

  /** No page belongs to two segments, and none of theirs is the stack page. */
  ghost predicate NoPageTwice(img: seq<Byte>, size: nat)
    requires 64 <= |img| && size <= |img| && HeadersFit(img, size)
  {
    SegmentsApart(img, size, Reach(img, size)) &&
    forall i :: 0 <= i < Reach(img, size) ==> !Covers(SegmentAt(img, size, i), STACK_PAGE)
  }

  /** Page by page or as a list: no page is mapped twice. */
  lemma TwiceMeans(img: seq<Byte>, size: nat)
    requires 64 <= |img| && size <= |img| && HeadersFit(img, size) && FileSound(img, size)
    ensures NoPageTwice(img, size) <==> Distinct(Plan(img, size) + [STACK_PAGE])
  {
    hide SegmentAt, HeadersFit, FileSound, PhNum, Reach, Covers, Distinct, Visits, SegmentsApart;
    VisitsDistinct(img, size, Reach(img, size));
    VisitsCovered(img, size, Reach(img, size), STACK_PAGE);
    DistinctJoined(Plan(img, size), [STACK_PAGE]);
    assert Elems([STACK_PAGE]) == {STACK_PAGE};
    OnePageDistinct();
  }

  lemma OnePageDistinct()
    ensures Distinct([STACK_PAGE])
  {
  }

  /** A frame is lost for every mapping of a page that was mapped before, and for nothing else. */
  ghost predicate LostFor(lost: set<nat>, vs: seq<nat>) {
    |lost| + |Elems(vs)| == |vs| && (lost == {} <==> Distinct(vs))
  }

  /** A load that has gone some way has lost one frame for every mapping that hit a mapped page. */
  lemma LostOnTheWay(m: Machine, l: Load)
    requires Loading(m, l)
    ensures LostFor(l.lost, l.visits)
  {
    hide Tree, Below, Allocator.Free, Shows, Frames, Pages, Accounted, BufferHolds, Opened, TablesFor, Need, Distinct, Elems;
    ElemsCount(l.visits);
    assert |l.pages.Keys| == |l.pages|;
  }

  /** The pages an exec sets out to map: those of the segments, and that of the stack unless a header is
      refused. */
  ghost function Mappings(img: seq<Byte>, size: nat): seq<nat>
    requires 64 <= |img| && size <= |img| && HeadersFit(img, size)
  {
    Plan(img, size) + if Reach(img, size) == PhNum(img) then [STACK_PAGE] else []
  }

  /** The pages an exec does map, with `room` frames left beside the buffer: none if one of the checks
      fails or there is no root table, and otherwise, in order, as many as there are frames for. */
  ghost function MappedPages(img: seq<Byte>, size: nat, got: int, room: int): seq<nat>
    requires 64 <= |img| && size <= |img|
  {
    if got <= 0 || !HasMagic(img) || !HeadersFit(img, size) || Entry64(img) >= USER_END || room <= 0 then []
    else Afforded(Mappings(img, size), room - 1)
  }

  lemma LostNone()
    ensures LostFor({}, [])
  {
    assert Elems([]) == {};
  }

  /** Frames are lost only by a file whose segments share a page, or one of them and the stack. */
  lemma LostMeansTwice(img: seq<Byte>, size: nat, got: int, room: int, lost: set<nat>)
    requires 64 <= |img| && size <= |img| && SoundPast(img, size)
    requires LostFor(lost, MappedPages(img, size, got, room)) && lost != {}
    ensures MapsTwice(img, size)
  {
    hide HeadersFit, FileSound, PhNum, Reach, Plan, NoPageTwice, HasMagic, Entry64, Afforded;
    TwiceMeans(img, size);
    var all, vs := Plan(img, size) + [STACK_PAGE], Afforded(Mappings(img, size), room - 1);
    assert vs <= Mappings(img, size) <= all;
    assert vs == all[..|vs|];
  }

  /** A well-formed header whose segments, or a segment and the stack, share a page. */
  ghost predicate MapsTwice(img: seq<Byte>, size: nat) {
    && 64 <= |img| && size <= |img| && HasMagic(img) && HeadersFit(img, size) && FileSound(img, size)
    && !NoPageTwice(img, size)
  }

  /** Past the checks of its header the file is sound, whatever the rest of its last buffer page happens
      to hold. */
  ghost predicate ElfSound(file: seq<Byte>) {
    forall rest: seq<Byte> :: 64 <= |file + rest| ==> SoundPast(file + rest, |file|)
  }

  /** The segments matter only once the header has passed. */
  ghost predicate SoundPast(img: seq<Byte>, size: nat)
    requires 64 <= |img| && size <= |img|
  {
    HasMagic(img) && Entry64(img) < USER_END ==> FileSound(img, size)
  }

  /** The header fields as read from the first 64 bytes of the buffer. */
  lemma HeadFields(img: seq<Byte>, head: seq<Byte>)
    requires 64 <= |img| && head == img[0..64]
    ensures Le64(head, 24) == Entry64(img) && Le64(head, 32) == PhOff(img) && Le16(head, 56) == PhNum(img)
    ensures HasMagic(head) == HasMagic(img)
  {
  }

  /** How the load ends once there is a root table, with `budget` frames left for pages and tables. */
  ghost predicate SpaceEnds(out: Outcome, img: seq<Byte>, size: nat, budget: int)
    requires 64 <= |img| && size <= |img| && HeadersFit(img, size)
  {
    match SegmentsEnd(img, size, budget)
    case OutOfMemory => out == NoMemory
    case OutOfTables => out == Starved
    case BadSegment => out == BadAddress
    case Mapped =>
      match Next(Plan(img, size), STACK_PAGE, budget)
      case OutOfMemory => out == NoStack
      case OutOfTables => out == Starved
      case _ => out.Running?
  }

  /** How an exec ends with the file in the buffer and `room` frames left. Every outcome has exactly one
      case, in the order of the checks. */
  ghost predicate Ends(out: Outcome, img: seq<Byte>, size: nat, got: int, room: int)
    requires 64 <= |img| && size <= |img|
  {
    if got <= 0 then out == ReadFailed
    else if !HasMagic(img) then out == BadMagic
    else if !HeadersFit(img, size) then out == BadHeaders
    else if Entry64(img) >= USER_END then out == BadEntry
    else if room <= 0 then out == NoPagemap
    else SpaceEnds(out, img, size, room - 1)
  }

  /** From the new page map to the jump: segments, stack, and release of the buffer. */
  method ExecSpace(m: Machine, root: nat, b: nat, n: nat, size: nat, phoff: nat, phnum: nat, entry: nat,
                   args: Option<seq<Byte>>, ghost l0: Load)
    returns (out: Outcome, ghost lost: set<nat>, ghost stack: Page)
    requires Loading(m, l0) && root == l0.root && b == l0.b && n == l0.n >= 1 && l0.pages == map[] && l0.visits == []
    requires 64 <= |l0.img| && size <= |l0.img|
    requires HasMagic(l0.img) && HeadersFit(l0.img, size) && FileSound(l0.img, size)
    requires phoff == PhOff(l0.img) && phnum == PhNum(l0.img) && entry == Entry64(l0.img) < USER_END
    requires args.Some? ==> |args.value| + 1 <= 4096
    modifies m`mem, m.pmm`freeMemory, m.pmm`last, m.pmm.bitmap
    ensures m.Valid() && SpaceEnds(out, l0.img, size, l0.Budget())
    ensures out.Starved? ==> |m.Free()| < 3
    ensures !out.Starved? && !out.Running? ==> lost <= l0.free0 && m.Free() == l0.free0 - lost
    ensures out.Running? ==> Loaded(m, out, l0.img, size, args, l0.free0, lost, stack)
    ensures !out.Starved? ==> LostFor(lost, Afforded(Mappings(l0.img, size), l0.Budget()))
  {
    hide Loading, Past, HasMagic, HeadersFit, FileSound, PhNum, PhOff, Entry64, NoPageTwice, Loaded, Allocator.Free,
      StackHolds, Image, Visits, Opened, Fate, Next, SegmentsEnd, Plan, Need, Load.Budget, LostFor,
      Afforded, Mappings, Reach;
    stack, lost := ZeroPage(), {};
    var status;
    ghost var l;
    status, l := LoadSegments(m, root, b, phoff, phnum, l0, size);
    if status.OutOfTables? { return Starved, lost, stack; }
    OnwardBudget(l0, l);
    LostOnTheWay(m, l);
    lost := l.lost;
    if status.BadSegment? || status.OutOfMemory? {
      MappingsStopped(l0.img, size, l0.Budget());
      Abandon(m, root, b, n, l);
      return if status.BadSegment? then BadAddress else NoMemory, lost, stack;
    }
    WholePlan(l0, size, l);
    var rsp;
    ghost var l1;
    status, rsp, l1, stack := SetUpStack(m, root, args, l);
    NextStatus(l.visits, STACK_PAGE, l.Budget());
    if status.OutOfTables? { return Starved, lost, stack; }
    if status.OutOfMemory? {
      StackStopped(l0.img, size, l0.Budget());
      Abandon(m, root, b, n, l);
      return NoStack, lost, stack;
    }
    lost := l1.lost;
    LostOnTheWay(m, l1);
    AllMapped(m, l0, l, l1, stack, size);
    ReleaseBuffer(m, root, b, n, l0, l, l1, stack, rsp, entry, args, size);
    out := Running(root, entry, rsp);
  }

  /** Where the segments stop an exec, it maps what they get to map. */
  lemma MappingsStopped(img: seq<Byte>, size: nat, budget: int)
    requires 64 <= |img| && size <= |img| && HeadersFit(img, size) && !SegmentsEnd(img, size, budget).Mapped?
    ensures Afforded(Mappings(img, size), budget) == Afforded(Plan(img, size), budget)
  {
    hide HeadersFit, Reach, PhNum, Need;
    var plan := Plan(img, size);
    if Reach(img, size) == PhNum(img) {
      NeedNext(plan, STACK_PAGE);
      assert (plan + [STACK_PAGE])[..|plan|] == plan;
    } else {
      assert plan + [] == plan;
    }
  }

  /** Where the stack stops it, it has mapped the segments. */
  lemma StackStopped(img: seq<Byte>, size: nat, budget: int)
    requires 64 <= |img| && size <= |img| && HeadersFit(img, size) && Reach(img, size) == PhNum(img)
    requires Need(Plan(img, size)) <= budget && !Next(Plan(img, size), STACK_PAGE, budget).Mapped?
    ensures Afforded(Mappings(img, size), budget) == Plan(img, size)
  {
    hide HeadersFit, Reach, PhNum, Need, Next, Afforded, Plan;
    AffordedStops(Mappings(img, size), Plan(img, size), STACK_PAGE, budget);
  }

  lemma AllMapped(m: Machine, l0: Load, l: Load, l1: Load, stack: Page, size: nat)
    requires Loading(m, l1) && Took(l, STACK_PAGE, stack, l1) && l.Budget() == l0.Budget()
    requires 64 <= |l0.img| && size <= |l0.img| && HeadersFit(l0.img, size) && Reach(l0.img, size) == PhNum(l0.img)
    requires l.visits == Plan(l0.img, size)
    ensures Afforded(Mappings(l0.img, size), l0.Budget()) == l1.visits
  {
    hide Loading, HeadersFit, Reach, PhNum, Need, Afforded, Plan;
    LoadingValid(m, l1);
    AffordedAll(l1.visits, l0.Budget());
  }

  lemma OnwardBudget(l0: Load, l: Load)
    requires Onward(l0, l)
    ensures l.Budget() == l0.Budget()
  {
  }

  /** Past the last header, the whole plan has been carried out. */
  lemma WholePlan(l0: Load, size: nat, l: Load)
    requires 64 <= |l0.img| && size <= |l0.img| && HeadersFit(l0.img, size) && FileSound(l0.img, size)
    requires Reach(l0.img, size) == PhNum(l0.img) && Past(l0, l0.img, size, PhNum(l0.img), l)
    requires SegmentsEnd(l0.img, size, l0.Budget()).Mapped?
    ensures l.visits == Plan(l0.img, size) && Need(l.visits) <= l0.Budget()
  {
    hide HeadersFit, FileSound, PhNum, Image, Visits, Reach, Need;
  }

  /** The last clean-up of a successful load. */
  method ReleaseBuffer(m: Machine, root: nat, b: nat, n: nat, ghost l0: Load, ghost l: Load, ghost l1: Load, ghost stack: Page,
                       rsp: nat, entry: nat, args: Option<seq<Byte>>, ghost size: nat)
    requires Loading(m, l1) && root == l1.root && b == l1.b && n == l1.n >= 1 && Took(l, STACK_PAGE, stack, l1)
    requires 64 <= |l0.img| && size <= |l0.img| && HasMagic(l0.img) && HeadersFit(l0.img, size) && FileSound(l0.img, size)
    requires Reach(l0.img, size) == PhNum(l0.img) && Past(l0, l0.img, size, Reach(l0.img, size), l)
    requires entry == Entry64(l0.img) < USER_END && StackHolds(stack, rsp, args)
    modifies m.pmm`freeMemory, m.pmm.bitmap
    ensures m.Valid() && Loaded(m, Running(root, entry, rsp), l0.img, size, args, l0.free0, l1.lost, stack)
  {
    hide Tree, Below, Allocator.Free, Entry, Shows, Frames, Pages, Accounted, StackHolds, HasMagic, HeadersFit, FileSound, PhNum,
      Image, Visits, Loading, BufferHolds, Past, Loaded, Entry64, Opened, Tallied;
    LoadingReleasable(m, l1);
    LoadedTally(m, l0, l, l1, stack, size);
    ghost var free := m.Free();
    FreeBuffer(m, b, n);
    AllBack(free, m.Free(), m.Free() + Frames(m.mem, root), Pages(b, n), Frames(m.mem, root), l1.free0 - l1.lost);
    LoadedNow(m, root, entry, rsp, l0.img, size, args, l0.free0, l1.lost, stack);
  }

  lemma LoadedTally(m: Machine, l0: Load, l: Load, l1: Load, stack: Page, size: nat)
    requires Loading(m, l1) && Took(l, STACK_PAGE, stack, l1)
    requires 64 <= |l0.img| && size <= |l0.img| && HeadersFit(l0.img, size) && FileSound(l0.img, size)
    requires Reach(l0.img, size) == PhNum(l0.img) && Past(l0, l0.img, size, Reach(l0.img, size), l)
    ensures l1.free0 == l0.free0 && l1.pages == Image(l0.img, size, Reach(l0.img, size))[STACK_PAGE := stack]
    ensures l1.lost == {} <==> Distinct(Plan(l0.img, size) + [STACK_PAGE])
  {
    hide HeadersFit, FileSound, PhNum, Image, Visits, Loading, Distinct;
    LostOnTheWay(m, l1);
  }

  lemma LoadedNow(m: Machine, root: nat, entry: nat, rsp: nat, img: seq<Byte>, size: nat, args: Option<seq<Byte>>,
                  free0: set<nat>, lost: set<nat>, stack: Page)
    requires m.Valid() && m.Space(root) && Opened(m.mem, root)
    requires m.Free() + Frames(m.mem, root) == free0 - lost && lost <= free0
    requires 64 <= |img| && size <= |img| && HasMagic(img) && HeadersFit(img, size) && FileSound(img, size)
    requires Reach(img, size) == PhNum(img)
    requires entry == Entry64(img) < USER_END && StackHolds(stack, rsp, args)
    requires Shows(m.mem, root, Image(img, size, Reach(img, size))[STACK_PAGE := stack])
    requires lost == {} <==> Distinct(Plan(img, size) + [STACK_PAGE])
    ensures Loaded(m, Running(root, entry, rsp), img, size, args, free0, lost, stack)
  {
    hide Tree, Below, Allocator.Free, Shows, Frames, StackHolds, HasMagic, HeadersFit, FileSound, PhNum, Image, Visits, Opened,
      Distinct;
  }

  /** Checks on the file, then the new page map. */
  method ExecBuffer(m: Machine, b: nat, n: nat, size: nat, got: int, args: Option<seq<Byte>>,
                    ghost img: seq<Byte>, ghost free0: set<nat>)
    returns (out: Outcome, ghost lost: set<nat>, ghost stack: Page)
    requires m.Valid() && BufferHolds(m.mem, b, n, img) && n >= 1 && size <= |img| && SoundPast(img, size)
    requires m.Free() + Pages(b, n) == free0 && m.Free() !! Pages(b, n) && 0 !in free0 && m.kernelRoot !in free0
    requires args.Some? ==> |args.value| + 1 <= 4096
    modifies m`mem, m.pmm`freeMemory, m.pmm`last, m.pmm.bitmap
    ensures m.Valid() && 64 <= |img| && Ends(out, img, size, got, |free0| - n)
    ensures out.Starved? ==> |m.Free()| < 3
    ensures !out.Starved? && !out.Running? ==> lost <= free0 && m.Free() == free0 - lost
    ensures out.Running? ==> Loaded(m, out, img, size, args, free0, lost, stack)
    ensures !out.Starved? ==> LostFor(lost, MappedPages(img, size, got, |free0| - n))
  {
    hide FileSound, NoPageTwice, LostFor, Afforded, Mappings, Loaded, Allocator.Free, Pages, Loading, Tree, Below, Frames, Entry64, PhOff, PhNum, Le64, Le16,
      BufferHolds, HasMagic, Opened, SpaceEnds, EmptySpace;
    BufferSize(m.mem, b, n, img);
    lost, stack := {}, ZeroPage();
    LostNone();
    PageOfRun(b, n, 0);
    RoomLeft(m.Free(), b, n, free0);
    if got <= 0 {
      FreeBuffer(m, b, n);
      return ReadFailed, lost, stack;
    }
    var head := ReadBuffer(m, b, 0, 64, n, img);
    HeadFields(img, head);
    if !HasMagic(head) {
      FreeBuffer(m, b, n);
      return BadMagic, lost, stack;
    }
    var phoff, phnum, entry := Le64(head, 32), Le16(head, 56), Le64(head, 24);
    if phoff >= size || phoff + phnum * PHDR_SIZE > size {
      FreeBuffer(m, b, n);
      return BadHeaders, lost, stack;
    }
    if entry >= USER_END {
      FreeBuffer(m, b, n);
      return BadEntry, lost, stack;
    }
    ghost var free, mem0 := m.Free(), m.mem;
    var root := m.NewPagemap();
    if root == 0 {
      FreeBuffer(m, b, n);
      return NoPagemap, lost, stack;
    }
    ghost var l := Load(root, b, n, img, free0, {}, map[], []);
    LoadingStarts(m, mem0, l, free);
    out, lost, stack := ExecSpace(m, root, b, n, size, phoff, phnum, entry, args, l);
  }

  lemma RoomLeft(free: set<nat>, b: nat, n: nat, free0: set<nat>)
    requires free + Pages(b, n) == free0 && free !! Pages(b, n)
    ensures |free| == |free0| - n && (free == {} <==> |free0| - n <= 0)
  {
    hide Pages;
    PagesCount(b, n);
    assert |free + Pages(b, n)| == |free| + |Pages(b, n)|;
  }

  lemma RunTaken(free: set<nat>, last: nat, highest: nat, n: nat, b: nat)
    requires TakenAt(free, last, highest, n, b) && last <= highest
    ensures Pages(b, n) <= free && b + n <= highest && free - Pages(b, n) + Pages(b, n) == free
  {
  }

  lemma BufferSize(mem: Memory, b: nat, n: nat, img: seq<Byte>)
    requires BufferHolds(mem, b, n, img)
    ensures b + n <= |mem| && |img| == 4096 * n
  {
  }

  lemma LoadingStarts(m: Machine, mem0: Memory, l: Load, free: set<nat>)
    requires l.lost == {} && l.pages == map[] && l.visits == []
    requires m.Valid() && m.Space(l.root) && Frames(m.mem, l.root) == {l.root}
    requires EmptySpace(m.mem, l.root) && Opened(m.mem, l.root)
    requires BufferHolds(mem0, l.b, l.n, l.img) && |m.mem| == |mem0|
    requires forall x :: 0 <= x < |m.mem| && x != l.root ==> m.mem[x] == mem0[x]
    requires l.root in free && m.Free() == free - {l.root} && free + Pages(l.b, l.n) == l.free0 && free !! Pages(l.b, l.n)
    requires 0 !in l.free0 && m.kernelRoot !in l.free0
    ensures Loading(m, l)
  {
    hide Tree, Below, Allocator.Free, EmptySpace, Pages, Frames, Shows, BufferHolds, Walk, Opened, TablesFor, Accounted, Tallied;
    StartKept(mem0, m.mem, l, free);
    ShowsNothing(m.mem, l.root);
    TablesForNone(m.mem, l.root);
    RoomLeft(free, l.b, l.n, l.free0);
    StartTallied(l);
    assert |m.Free()| == |free| - 1;
    StartAccounted(free, l.root, Pages(l.b, l.n), l.free0);
  }

  lemma StartKept(mem0: Memory, mem: Memory, l: Load, free: set<nat>)
    requires BufferHolds(mem0, l.b, l.n, l.img) && |mem| == |mem0|
    requires forall x :: 0 <= x < |mem| && x != l.root ==> mem[x] == mem0[x]
    requires l.root in free && free !! Pages(l.b, l.n)
    ensures BufferHolds(mem, l.b, l.n, l.img)
  {
    hide Pages, BufferHolds;
    BufferKept(mem0, mem, l.b, l.n, l.img);
  }

  lemma StartTallied(l: Load)
    requires l.lost == {} && l.pages == map[] && l.visits == []
    ensures Tallied(l)
  {
    assert Elems([]) == {};
  }

  lemma StartAccounted(free: set<nat>, root: nat, buffer: set<nat>, free0: set<nat>)
    requires root in free && free + buffer == free0 && free !! buffer
    ensures Accounted(free - {root}, {root}, buffer, {}, free0)
  {
  }

  /** file_pages: the pages of the buffer, in 32-bit arithmetic, which wraps for the largest sizes. */
  function FilePages(size: nat): nat { (size + 4095) % 0x1_0000_0000 / 4096 }

  lemma FilePagesHold(size: nat)
    requires size < 0x1_0000_0000
    ensures FilePages(size) == 0 <==> size == 0 || size > 0xFFFF_F000
    ensures FilePages(size) > 0 ==> size <= 4096 * FilePages(size) < size + 4096
  {
  }

  /** From the reading of the file into its buffer on. */
  method ExecRead(m: Machine, b: nat, n: nat, file: seq<Byte>, got: int, args: Option<seq<Byte>>, ghost free0: set<nat>)
    returns (out: Outcome, ghost img: seq<Byte>, ghost lost: set<nat>, ghost stack: Page)
    requires m.Valid() && b + n <= |m.mem| && n >= 1 && |file| <= 4096 * n && ElfSound(file)
    requires m.Free() + Pages(b, n) == free0 && m.Free() !! Pages(b, n) && 0 !in free0 && m.kernelRoot !in free0
    requires args.Some? ==> |args.value| + 1 <= 4096
    modifies m`mem, m.pmm`freeMemory, m.pmm`last, m.pmm.bitmap
    ensures m.Valid()
    ensures 64 <= |img| && |file| <= |img| && img[..|file|] == file && Ends(out, img, |file|, got, |free0| - n)
    ensures out.Starved? ==> |m.Free()| < 3
    ensures !out.Starved? && !out.Running? ==> lost <= free0 && m.Free() == free0 - lost
    ensures out.Running? ==> Loaded(m, out, img, |file|, args, free0, lost, stack)
    ensures !out.Starved? ==> LostFor(lost, MappedPages(img, |file|, got, |free0| - n))
    ensures !out.Starved? && lost != {} ==> MapsTwice(img, |file|)
  {
    hide Allocator.Free, FileSound, HeadersFit, HasMagic, NoPageTwice, Loaded, Pages, BufferHolds, Opened, Ends, LostFor,
      MappedPages, MapsTwice, Entry64, ElfSound, SoundPast;
    LoadBuffer(m, b, n, file);
    img := BufferBytes(m.mem, b, n);
    BufferSize(m.mem, b, n, img);
    SoundInBuffer(file, img);
    out, lost, stack := ExecBuffer(m, b, n, |file|, got, args, img, free0);
    if !out.Starved? && lost != {} {
      LostMeansTwice(img, |file|, got, |free0| - n, lost);
    }
  }

  lemma SoundInBuffer(file: seq<Byte>, img: seq<Byte>)
    requires ElfSound(file) && 64 <= |img| && |file| <= |img| && img[..|file|] == file
    ensures SoundPast(img, |file|)
  {
    hide SoundPast;
    assert img == file + img[|file|..];
  }

  /** How an exec of a file ends that starts with these free frames: not found if it is empty, without a
      buffer if there is no run of frames for it, and otherwise as the file and the frames decide. */
  ghost predicate ExecEnds(out: Outcome, file: seq<Byte>, img: seq<Byte>, got: int, free0: set<nat>, last: nat, highest: nat) {
    var n := FilePages(|file|);
    if |file| == 0 then out == NotFound
    else if n == 0 || NoneToTake(free0, last, highest, n) then out == NoBuffer
    else
      && 64 <= |img| && |file| <= |img| && img[..|file|] == file
      && Ends(out, img, |file|, got, |free0| - n)
  }

  /** The frames an exec loses: none without a buffer, and otherwise one for every mapping that hits a
      page mapped before. */
  ghost predicate ExecLoses(lost: set<nat>, file: seq<Byte>, img: seq<Byte>, got: int, free0: set<nat>, last: nat, highest: nat) {
    var n := FilePages(|file|);
    if |file| == 0 || n == 0 || NoneToTake(free0, last, highest, n) then lost == {}
    else 64 <= |img| && |file| <= |img| && LostFor(lost, MappedPages(img, |file|, got, |free0| - n))
  }

  /** process_exec from a file image in memory on: `got` is what the file system's read returned. Which
      outcome occurs, and what becomes of every frame. */
  method Exec(m: Machine, file: seq<Byte>, got: int, args: Option<seq<Byte>>)
    returns (out: Outcome, ghost img: seq<Byte>, ghost lost: set<nat>, ghost stack: Page)
    requires m.Valid() && |file| < 0x1_0000_0000 && ElfSound(file)
    requires args.Some? ==> |args.value| + 1 <= 4096
    modifies m`mem, m.pmm`freeMemory, m.pmm`last, m.pmm.bitmap
    ensures m.Valid()
    ensures ExecEnds(out, file, img, got, old(m.Free()), old(m.pmm.last), m.pmm.highest)
    ensures out.Starved? ==> |m.Free()| < 3
    ensures !out.Starved? && !out.Running? ==> lost <= old(m.Free()) && m.Free() == old(m.Free()) - lost
    ensures out.Running? ==> Loaded(m, out, img, |file|, args, old(m.Free()), lost, stack)
    ensures !out.Starved? ==> ExecLoses(lost, file, img, got, old(m.Free()), old(m.pmm.last), m.pmm.highest)
    ensures !out.Starved? && lost != {} ==> MapsTwice(img, |file|)
  {
    hide Allocator.Free, FileSound, HeadersFit, HasMagic, NoPageTwice, Loaded, Pages, BufferHolds, TakenAt, NoneToTake, Opened,
      Ends, FilePages, LostFor, MappedPages, MapsTwice, Entry64, ElfSound, SoundPast;
    img, lost, stack := [], {}, ZeroPage();
    ghost var free0 := m.Free();
    if |file| == 0 { return NotFound, img, lost, stack; }
    var n := FilePages(|file|);
    FilePagesHold(|file|);
    var addr;
    ghost var first;
    addr, first := m.pmm.AllocPages(n);
    if first != -1 {
      RunTaken(free0, old(m.pmm.last), m.pmm.highest, n, first);
      PageOfRun(first, n, 0);
    }
    if addr == 0 { return NoBuffer, img, lost, stack; }
    var b := addr / PAGE;
    out, img, lost, stack := ExecRead(m, b, n, file, got, args, free0);
  }

  /** The running program: its space holds exactly the image and the stack, and everything not in it
      and not lost is free. */
  ghost predicate Loaded(m: Machine, out: Outcome, img: seq<Byte>, size: nat, args: Option<seq<Byte>>,
                         free0: set<nat>, lost: set<nat>, stack: Page)
    reads m, m.pmm, m.pmm.bitmap
  {
    && m.Valid() && out.Running? && m.Space(out.root) && Opened(m.mem, out.root)
    && 64 <= |img| && size <= |img| && HasMagic(img) && HeadersFit(img, size) && FileSound(img, size)
    && Reach(img, size) == PhNum(img) && out.entry == Entry64(img) < USER_END
    && Shows(m.mem, out.root, Image(img, size, Reach(img, size))[STACK_PAGE := stack])
    && StackHolds(stack, out.rsp, args)
    && m.Free() + Frames(m.mem, out.root) == free0 - lost && lost <= free0
    && (lost == {} <==> Distinct(Plan(img, size) + [STACK_PAGE]))
  }

  /** A running program has cost frames for good exactly when two of its segments share a page, or one
      of them has the stack page. */
  lemma LostExactly(m: Machine, out: Outcome, img: seq<Byte>, size: nat, args: Option<seq<Byte>>,
                    free0: set<nat>, lost: set<nat>, stack: Page)
    requires Loaded(m, out, img, size, args, free0, lost, stack)
    ensures lost == {} <==> NoPageTwice(img, size)
  {
    hide Shows, Image, Visits, HeadersFit, FileSound, PhNum, StackHolds, Frames, Allocator.Free, Opened, NoPageTwice, Distinct;
    TwiceMeans(img, size);
  }

  /** A file in order runs exactly when there are frames enough: those of the buffer, the root, and one
      for every mapping and every table that the pages of the segments and the stack lie under. */
  lemma RunsExactly(out: Outcome, img: seq<Byte>, size: nat, got: int, room: int)
    requires 64 <= |img| && size <= |img| && Ends(out, img, size, got, room)
    requires got > 0 && HasMagic(img) && HeadersFit(img, size) && Entry64(img) < USER_END
    requires FileSound(img, size) && Reach(img, size) == PhNum(img)
    ensures out.Running? <==> room >= 1 + Need(Plan(img, size) + [STACK_PAGE])
  {
    hide HasMagic, HeadersFit, PhNum, Entry64, Need, Visits, Reach;
    NeedNext(Plan(img, size), STACK_PAGE);
  }

  /** Not found if it is empty, no buffer if its pages do not fit in 32 bits or in a free run. */
  lemma FirstOutcomes(out: Outcome, file: seq<Byte>, img: seq<Byte>, got: int, free0: set<nat>, last: nat, highest: nat)
    requires ExecEnds(out, file, img, got, free0, last, highest) && |file| < 0x1_0000_0000
    ensures out == NotFound <==> file == []
    ensures out == NoBuffer <==> file != [] && (|file| > 0xFFFF_F000 || NoneToTake(free0, last, highest, (|file| + 4095) / 4096))
    ensures out != NotFound && out != NoBuffer ==>
      && 64 <= |img| && |file| <= |img| && img[..|file|] == file
      && Ends(out, img, |file|, got, |free0| - (|file| + 4095) / 4096)
  {
    hide NoneToTake, Ends, FilePages;
    FilePagesHold(|file|);
    if file != [] && FilePages(|file|) > 0 && !NoneToTake(free0, last, highest, FilePages(|file|)) {
      LaterOutcome(out, img, |file|, got, |free0| - FilePages(|file|));
    }
    if |file| <= 0xFFFF_F000 {
      PagesPlain(|file|);
    }
  }

  lemma PagesPlain(size: nat)
    requires size <= 0xFFFF_F000
    ensures FilePages(size) == (size + 4095) / 4096
  {
  }

  lemma LaterOutcome(out: Outcome, img: seq<Byte>, size: nat, got: int, room: int)
    requires 64 <= |img| && size <= |img| && Ends(out, img, size, got, room)
    ensures out != NotFound && out != NoBuffer
  {
    hide HeadersFit, HasMagic, Entry64, SegmentsEnd, Next, Plan;
  }

  lemma SpaceOutcome(out: Outcome, img: seq<Byte>, size: nat, budget: int)
    requires 64 <= |img| && size <= |img| && HeadersFit(img, size) && SpaceEnds(out, img, size, budget)
    ensures !out.ReadFailed? && !out.BadMagic? && !out.BadHeaders? && !out.BadEntry? && !out.NoPagemap?
  {
    hide HeadersFit, SegmentsEnd, Next, Plan;
  }

  /** The checks of the file in its buffer, in their order, each with its outcome. */
  lemma CheckOutcomes(out: Outcome, img: seq<Byte>, size: nat, got: int, room: int)
    requires 64 <= |img| && size <= |img| && Ends(out, img, size, got, room)
    ensures var magic, fit, low := img[..4] == [0x7F, 0x45, 0x4C, 0x46], HeadersFit(img, size), LittleEndian(img, 24, 8) < 0x8000_0000_0000;
      && (out == ReadFailed <==> got <= 0)
      && (out == BadMagic <==> got > 0 && !magic)
      && (out == BadHeaders <==> got > 0 && magic && !fit)
      && (out == BadEntry <==> got > 0 && magic && fit && !low)
      && (out == NoPagemap <==> got > 0 && magic && fit && low && room <= 0)
      && (got > 0 && magic && fit && low && room > 0 ==> SpaceEnds(out, img, size, room - 1))
  {
    hide HeadersFit, HasMagic, Entry64, SpaceEnds, LittleEndian, PhOff, PhNum;
    HeaderParsed(img);
    if HeadersFit(img, size) && SpaceEnds(out, img, size, room - 1) {
      SpaceOutcome(out, img, size, room - 1);
    }
  }

  /** How the rest ends, with `budget` frames left for pages and tables. The segments take too much:
      without memory, or without a table. A header is refused, at its address. The stack does not fit,
      without memory for it or without a table. Otherwise the program runs. */
  lemma SpaceOutcomes(out: Outcome, img: seq<Byte>, size: nat, budget: int)
    requires 64 <= |img| && size <= |img| && HeadersFit(img, size) && SpaceEnds(out, img, size, budget)
    ensures var plan, all := Plan(img, size), Reach(img, size) == PhNum(img);
      && (out == NoMemory <==> Need(plan) > budget && exists p :: 0 <= p < |plan| && Need(plan[..p]) == budget)
      && (out == BadAddress <==> Need(plan) <= budget && !all)
      && (out == NoStack <==> Need(plan) == budget && all)
      && (out.Running? <==> Need(plan + [0x7_0000_0000]) <= budget && all)
      && (out == Starved ==> Need(plan) > budget || (Need(plan) < budget < Need(plan + [0x7_0000_0000]) && all))
  {
    hide HeadersFit, Plan, Reach, PhNum, Need, Fate;
    NeedNext(Plan(img, size), STACK_PAGE);
    FateMeans(Plan(img, size), budget);
  }

  lemma FateMeans(plan: seq<nat>, budget: int)
    ensures Fate(plan, budget).Mapped? <==> Need(plan) <= budget
    ensures Fate(plan, budget).OutOfMemory? <==> Need(plan) > budget && exists p :: 0 <= p < |plan| && Need(plan[..p]) == budget
    ensures !Fate(plan, budget).BadSegment?
  {
    hide Need;
  }

  lemma ShownByte(mem: Memory, root: nat, pages: map<nat, Page>, a: nat)
    requires Shows(mem, root, pages) && a / 4096 in pages
    ensures ByteAt(mem, root, a) == pages[a / 4096][a % 4096]
  {
    hide Walk;
    assert ShowsPage(mem, root, a / 4096, pages[a / 4096]);
  }

  /** In the running program's memory, byte vaddr + k of a segment is byte offset + k of the file for
      k < filesz and zero from there to memsz, whatever the alignment of vaddr. */
  lemma LoadedByte(m: Machine, out: Outcome, img: seq<Byte>, size: nat, args: Option<seq<Byte>>,
                   free0: set<nat>, lost: set<nat>, stack: Page, i: nat, k: nat)
    requires Loaded(m, out, img, size, args, free0, lost, stack) && i < PhNum(img)
    requires SegmentsApart(img, size, PhNum(img))
    requires SegmentAt(img, size, i).Loads() && k < SegmentAt(img, size, i).memsz
    requires (SegmentAt(img, size, i).vaddr + k) / 4096 != STACK_PAGE
    ensures SegmentSound(SegmentAt(img, size, i), size)
    ensures var s := SegmentAt(img, size, i);
      ByteAt(m.mem, out.root, s.vaddr + k) == if k < s.filesz then img[s.offset + k] else 0
  {
    hide Image, HeadersFit, FileSound, PhNum, PageImage, StackHolds, Frames, Allocator.Free, Walk, SegmentsApart, SegmentAt, Opened,
      Reach, Plan, Distinct, HasMagic, Entry64, Tree, Below;
    var s := SegmentAt(img, size, i);
    SoundAt(img, size, i);
    SegmentByte(img, s, k);
    ImageShows(img, size, Reach(img, size), i, (s.vaddr + k) / 4096);
    hide Shows;
    ShownByte(m.mem, out.root, Image(img, size, Reach(img, size))[STACK_PAGE := stack], s.vaddr + k);
  }

  /** The same in terms of the file's own bytes: of a loadable program header the file offset is at 8, the
      address at 16, the file size at 32 and the memory size at 40; execution starts at the address that
      the file header has at 24. */
  lemma LoadedFileByte(m: Machine, out: Outcome, img: seq<Byte>, size: nat, args: Option<seq<Byte>>,
                       free0: set<nat>, lost: set<nat>, stack: Page, i: nat, o: nat, k: nat)
    requires Loaded(m, out, img, size, args, free0, lost, stack) && i < LittleEndian(img, 56, 2)
    requires o == LittleEndian(img, 32, 8) + 56 * i && o + 56 <= |img|
    requires SegmentsApart(img, size, PhNum(img))
    requires LittleEndian(img, o, 4) == 1 && LittleEndian(img, o + 16, 8) < 0x8000_0000_0000
    requires k < LittleEndian(img, o + 40, 8) && (LittleEndian(img, o + 16, 8) + k) / 4096 != 0x7_0000_0000
    ensures out.entry == LittleEndian(img, 24, 8)
    ensures k < LittleEndian(img, o + 32, 8) ==> LittleEndian(img, o + 8, 8) + k < |img|
    ensures ByteAt(m.mem, out.root, LittleEndian(img, o + 16, 8) + k) ==
      if k < LittleEndian(img, o + 32, 8) then img[LittleEndian(img, o + 8, 8) + k] else 0
  {
    hide Image, HeadersFit, FileSound, PhNum, PageImage, StackHolds, Frames, Allocator.Free, Walk, SegmentsApart, SegmentAt, Opened,
      Reach, Plan, Distinct, HasMagic, Entry64, Tree, Below, Shows, LittleEndian, ByteAt;
    HeaderParsed(img);
    SegmentInFile(img, size, i);
    LoadedByte(m, out, img, size, args, free0, lost, stack, i, k);
  }

  /** The running program finds its arguments at its stack pointer, a NUL behind them, right below the end
      of the stack page; without arguments the stack pointer is that end. */
  lemma LoadedArgs(m: Machine, out: Outcome, img: seq<Byte>, size: nat, args: Option<seq<Byte>>,
                   free0: set<nat>, lost: set<nat>, stack: Page)
    requires Loaded(m, out, img, size, args, free0, lost, stack)
    ensures args.None? ==> out.rsp == 0x7000_0000_1000
    ensures args.Some? ==>
      && out.rsp == 0x7000_0000_1000 - (|args.value| + 1) && |args.value| < 4096
      && (forall i :: 0 <= i < |args.value| ==> ByteAt(m.mem, out.root, out.rsp + i) == args.value[i])
      && ByteAt(m.mem, out.root, out.rsp + |args.value|) == 0
  {
    hide Image, HeadersFit, FileSound, PhNum, Frames, Allocator.Free, Walk, Opened, Reach, Plan, Distinct, HasMagic, Entry64, Tree,
      Below, Shows;
    if args.Some? {
      var n, at := |args.value|, out.rsp - 4096 * STACK_PAGE;
      forall i | 0 <= i <= n ensures ByteAt(m.mem, out.root, out.rsp + i) == (args.value + [0])[i] {
        assert stack[at..][i] == stack[at + i];
        ShownByte(m.mem, out.root, Image(img, size, Reach(img, size))[STACK_PAGE := stack], out.rsp + i);
      }
      assert (args.value + [0])[n] == 0;
      assert forall i :: 0 <= i < n ==> (args.value + [0])[i] == args.value[i];
    }
  }

  /** Bytes of a loaded page that its segment does not have in the file are zero. */
  lemma LoadedPadding(m: Machine, out: Outcome, img: seq<Byte>, size: nat, args: Option<seq<Byte>>,
                      free0: set<nat>, lost: set<nat>, stack: Page, i: nat, a: nat)
    requires Loaded(m, out, img, size, args, free0, lost, stack) && i < PhNum(img)
    requires SegmentsApart(img, size, PhNum(img))
    requires Covers(SegmentAt(img, size, i), a / 4096) && a / 4096 != STACK_PAGE
    requires var s := SegmentAt(img, size, i); !(s.vaddr <= a < s.vaddr + s.filesz)
    ensures ByteAt(m.mem, out.root, a) == 0
  {
    hide Image, HeadersFit, FileSound, PhNum, PageImage, StackHolds, Frames, Allocator.Free, Walk, SegmentsApart, SegmentAt, Opened,
      Reach, Plan, Distinct, HasMagic, Entry64, Tree, Below;
    var s := SegmentAt(img, size, i);
    SoundAt(img, size, i);
    PaddingByte(img, s, a / 4096, a % 4096);
    ImageShows(img, size, Reach(img, size), i, a / 4096);
    hide Shows;
    ShownByte(m.mem, out.root, Image(img, size, Reach(img, size))[STACK_PAGE := stack], a);
  }

  /** The running program may read and write exactly the pages of its image and its stack: that is what
      the checks of the system calls find. */
  lemma LoadedAccess(m: Machine, out: Outcome, img: seq<Byte>, size: nat, args: Option<seq<Byte>>,
                     free0: set<nat>, lost: set<nat>, stack: Page, a: nat, write: bool)
    requires Loaded(m, out, img, size, args, free0, lost, stack) && a < 0x8000_0000_0000
    ensures UserByte(m.mem, out.root, a, write) <==> a / 4096 == STACK_PAGE || a / 4096 in Image(img, size, Reach(img, size))
  {
    hide Image, HeadersFit, FileSound, PhNum, StackHolds, Frames, Allocator.Free, Walk, UserPath, UserPage, Tree;
    assert a / 4096 < USER_PAGES;
    LeafDecides(m.mem, out.root, 4, a / 4096, write);
  }

  /** sys_exit: the address space goes back to the allocator. */
  method Exit(m: Machine, root: nat)
    requires m.Valid() && m.Space(root)
    modifies m.pmm`freeMemory, m.pmm.bitmap
    ensures m.Valid() && m.Free() == old(m.Free()) + Frames(m.mem, root)
  {
    hide Tree, Below, Allocator.Free, Opened;
    m.FreePagemap(root);
  }

  /** From exec to exit: whatever happens in between, every frame comes back, except those dropped by
      a file that maps a page twice. */
  method RunToExit(m: Machine, file: seq<Byte>, got: int, args: Option<seq<Byte>>)
    returns (out: Outcome, ghost img: seq<Byte>, ghost lost: set<nat>)
    requires m.Valid() && |file| < 0x1_0000_0000 && ElfSound(file)
    requires args.Some? ==> |args.value| + 1 <= 4096
    modifies m`mem, m.pmm`freeMemory, m.pmm`last, m.pmm.bitmap
    ensures m.Valid()
    ensures ExecEnds(out, file, img, got, old(m.Free()), old(m.pmm.last), m.pmm.highest)
    ensures out.Starved? ==> |m.Free()| < 3
    ensures !out.Starved? ==> lost <= old(m.Free()) && m.Free() == old(m.Free()) - lost
    ensures !out.Starved? ==> ExecLoses(lost, file, img, got, old(m.Free()), old(m.pmm.last), m.pmm.highest)
    ensures !out.Starved? && lost != {} ==> MapsTwice(img, |file|)
    ensures out.Running? ==> 64 <= |img| && |file| <= |img| && HeadersFit(img, |file|) && (lost == {} <==> NoPageTwice(img, |file|))
  {
    hide ExecEnds, ExecLoses, NoPageTwice, Reach, Plan, Distinct, Allocator.Free, ElfSound, MapsTwice, Shows, StackHolds, Image, HasMagic, HeadersFit, FileSound, PhNum, Entry64,
      Tree, Below, Frames, Opened;
    ghost var stack;
    out, img, lost, stack := Exec(m, file, got, args);
    if out.Running? {
      LostExactly(m, out, img, |file|, args, old(m.Free()), lost, stack);
      Exit(m, out.root);
    }
  }
}
