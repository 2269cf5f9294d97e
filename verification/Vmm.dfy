/** The virtual memory manager: page tables built and torn down in physical memory, over the page
    allocator. Frames are named by number; address 0 is no frame, so page 0 stays reserved. */
module Vmm {
  import opened Bytes
  import opened Pmm
  import opened PageTables
  import opened UserPaths
  import opened TableNeeds

  /** The number of pages in the user half, 2^47 bytes. */
  const USER_PAGES: nat := 0x8_0000_0000

  /** The frames a user address space is made of: its root, its lower-half tables and its pages. */
  ghost function Frames(mem: Memory, root: nat): set<nat>
    requires root < |mem|
  {
    {root} + Below(mem, root, 4, 256)
  }

  lemma UserIdx(v: nat)
    requires v < USER_PAGES
    ensures Idx(v, 4) < 256
  {
  }

  /** What an address space shows: the translation of every user page. */
  ghost predicate SameMap(mem: Memory, mem': Memory, root: nat) {
    forall v: nat :: v < USER_PAGES ==> Walk(mem', root, 4, v) == Walk(mem, root, 4, v)
  }

  /** The bytes of every page mapped before, the kernel's entries, and all memory outside `own`, are
      untouched. */
  ghost predicate Untouched(mem: Memory, mem': Memory, root: nat, own: set<nat>) {
    && |mem| == |mem'| && root < |mem|
    && (forall x :: 0 <= x < |mem| && x !in own ==> mem'[x] == mem[x])
    && (forall v: nat :: v < USER_PAGES && Walk(mem, root, 4, v).Some? && FrameOf(Walk(mem, root, 4, v).value) < |mem| ==>
          mem'[FrameOf(Walk(mem, root, 4, v).value)] == mem[FrameOf(Walk(mem, root, 4, v).value)])
    && (forall i :: 256 <= i < 512 ==> Entry(mem'[root], i) == Entry(mem[root], i))
  }

  /** User mode gets through every table of the user half: only the leaves decide what it may touch. */
  ghost predicate Opened(mem: Memory, root: nat) {
    forall v: nat :: v < USER_PAGES ==> UserPath(mem, root, 4, v)
  }

  /** Once the table below level `lo` on the path of v is there, pages that share the path that far lack
      no more than what is below it; the others lack what they lacked. */
  ghost predicate StepFurnished(mem: Memory, mem': Memory, root: nat, v: nat, lo: nat) {
    && 2 <= lo <= 4
    && forall w: nat :: w < USER_PAGES ==>
         Missing(mem', root, 4, w) ==
         if SamePath(v, w, lo, 4) then Least(Missing(mem, root, 4, w), lo - 2) else Missing(mem, root, 4, w)
  }

  /** Once page v is mapped, every page lacks what it lacked, or as much as it has apart from v. */
  ghost predicate Furnished(mem: Memory, mem': Memory, root: nat, v: nat) {
    forall w: nat :: w < USER_PAGES ==> Missing(mem', root, 4, w) == Least(Missing(mem, root, 4, w), Shared(v, w))
  }

  /** The tables are those that mapping the pages of vs requires. */
  ghost predicate TablesFor(mem: Memory, root: nat, vs: seq<nat>) {
    forall w: nat :: w < USER_PAGES ==> Missing(mem, root, 4, w) == Lacking(vs, w)
  }

  lemma TablesForNone(mem: Memory, root: nat)
    requires EmptySpace(mem, root)
    ensures TablesFor(mem, root, []) && Need([]) == 0
  {
  }

  lemma TablesForNext(mem: Memory, mem': Memory, root: nat, vs: seq<nat>, v: nat)
    requires TablesFor(mem, root, vs) && Furnished(mem, mem', root, v)
    ensures TablesFor(mem', root, vs + [v])
  {
    hide Missing, Lacking, Shared;
    NeedNext(vs, v);
  }

  lemma ThreeSteps(a: Memory, b: Memory, c: Memory, d: Memory, root: nat, v: nat)
    requires StepFurnished(a, b, root, v, 4) && StepFurnished(b, c, root, v, 3) && StepFurnished(c, d, root, v, 2)
    requires v < USER_PAGES
    ensures Furnished(a, d, root, v)
  {
    hide Missing, SamePath;
    forall w: nat | w < USER_PAGES ensures Missing(d, root, 4, w) == Least(Missing(a, root, 4, w), Shared(v, w)) {
      SharedPath(v, w);
      RegionsUp(v, w);
    }
  }

  lemma RegionsUp(v: nat, w: nat)
    ensures v / 512 == w / 512 ==> v / 0x4_0000 == w / 0x4_0000
    ensures v / 0x4_0000 == w / 0x4_0000 ==> v / 0x800_0000 == w / 0x800_0000
  {
    assert v / 0x4_0000 == v / 512 / 512 && w / 0x4_0000 == w / 512 / 512;
    assert v / 0x800_0000 == v / 0x4_0000 / 512 && w / 0x800_0000 == w / 0x4_0000 / 512;
  }

  lemma UntouchedTwice(a: Memory, b: Memory, c: Memory, root: nat, own: set<nat>)
    requires Untouched(a, b, root, own) && Untouched(b, c, root, own) && SameMap(a, b, root)
    ensures Untouched(a, c, root, own)
  {
    hide Walk, Entry;
  }

  class Machine {
    const pmm: Allocator
    const kernelRoot: nat
    var mem: Memory

    constructor (pmm: Allocator, kernelRoot: nat, mem: Memory)
      ensures this.pmm == pmm && this.kernelRoot == kernelRoot && this.mem == mem
    {
      this.pmm, this.kernelRoot, this.mem := pmm, kernelRoot, mem;
    }

    ghost predicate Valid()
      reads this, pmm, pmm.bitmap
    {
      && pmm.Valid() && |mem| == pmm.highest <= 0x100_0000_0000
      && 0 !in pmm.Free() && kernelRoot < |mem| && kernelRoot !in pmm.Free()
    }

    /** root is a user address space: a proper tree of frames, none of them free or reserved. */
    ghost predicate Space(root: nat)
      requires Valid()
      reads this, pmm, pmm.bitmap
    {
      && root < |mem| && Tree(mem, root, 4, 256)
      && Frames(mem, root) !! pmm.Free() && 0 !in Frames(mem, root) && kernelRoot !in Frames(mem, root)
    }

    ghost function Free(): set<nat>
      requires pmm.Shape()
      reads pmm, pmm.bitmap
    {
      pmm.Free()
    }

    /** Frames under the control of the allocator or of the address space. */
    ghost function Own(root: nat): set<nat>
      requires pmm.Shape() && root < |mem|
      reads this, pmm, pmm.bitmap
    {
      Free() + Frames(mem, root)
    }

    method AllocFrame() returns (f: nat)
      requires Valid()
      modifies pmm`freeMemory, pmm`last, pmm.bitmap
      ensures Valid()
      ensures if old(Free()) == {} then f == 0 && Free() == {} else f in old(Free()) && f != 0 && Free() == old(Free()) - {f}
      ensures f < |mem|
    {
      var addr := pmm.AllocPage();
      f := addr / PAGE;
    }

    method ReadEntry(f: nat, i: nat) returns (e: nat)
      requires f < |mem| && i < 512
      ensures e == Entry(mem[f], i)
    {
      e := Entry(mem[f], i);
    }

    method WriteEntry(f: nat, i: nat, e: nat)
      requires f < |mem| && i < 512 && e < 0x1_0000_0000_0000_0000
      modifies this`mem
      ensures mem == old(mem)[f := WithEntry(old(mem)[f], i, e)]
    {
      mem := mem[f := WithEntry(mem[f], i, e)];
    }

    /** memset of a whole frame. */
    method ZeroFrame(f: nat)
      requires f < |mem|
      modifies this`mem
      ensures mem == old(mem)[f := ZeroPage()]
    {
      mem := mem[f := ZeroPage()];
    }

    /** A new address space: an empty lower half under the kernel's upper half. */
    method NewPagemap() returns (root: nat)
      requires Valid()
      modifies this`mem, pmm`freeMemory, pmm`last, pmm.bitmap
      ensures Valid()
      ensures old(Free()) == {} ==> root == 0 && mem == old(mem) && Free() == {}
      ensures old(Free()) != {} ==> root in old(Free()) && Free() == old(Free()) - {root} && |mem| == |old(mem)|
      ensures old(Free()) != {} ==> Space(root) && Frames(mem, root) == {root}
      ensures old(Free()) != {} ==> EmptySpace(mem, root) && Opened(mem, root)
      ensures old(Free()) != {} ==> forall i :: 256 <= i < 512 ==> Entry(mem[root], i) == Entry(mem[kernelRoot], i)
      ensures old(Free()) != {} ==> forall x :: 0 <= x < |mem| && x != root ==> mem[x] == old(mem)[x]
    {
      hide Entry, WithEntry, Allocator.Free, EmptySpace, Tree, Below, Walk, Opened;
      root := AllocFrame();
      if root == 0 { return; }
      ZeroFrame(root);
      forall j | 0 <= j < 512 ensures Entry(ZeroPage(), j) == 0 { EntryZero(j); }
      CopyUpperHalf(root);
      EmptyLowerHalf(mem, root);
    }

    /** The kernel's half of a root table. */
    method CopyUpperHalf(root: nat)
      requires root < |mem| && kernelRoot < |mem| && root != kernelRoot
      modifies this`mem
      ensures |mem| == |old(mem)| && forall x :: 0 <= x < |mem| && x != root ==> mem[x] == old(mem)[x]
      ensures forall j :: 0 <= j < 256 ==> Entry(mem[root], j) == Entry(old(mem)[root], j)
      ensures forall j :: 256 <= j < 512 ==> Entry(mem[root], j) == Entry(mem[kernelRoot], j)
    {
      hide Entry, WithEntry;
      var i := 256;
      while i < 512
        invariant 256 <= i <= 512 && |mem| == |old(mem)|
        invariant forall x :: 0 <= x < |mem| && x != root ==> mem[x] == old(mem)[x]
        invariant forall j :: 0 <= j < 256 ==> Entry(mem[root], j) == Entry(old(mem)[root], j)
        invariant forall j :: 256 <= j < i ==> Entry(mem[root], j) == Entry(mem[kernelRoot], j)
      {
        ghost var page := mem[root];
        var e := ReadEntry(kernelRoot, i);
        WriteEntry(root, i, e);
        forall j | 0 <= j < 512 ensures Entry(mem[root], j) == if j == i then e else Entry(page, j) {
          EntryStored(page, i, e, j);
        }
        i := i + 1;
      }
    }

    // ----- mapping

    /** One of the three steps of vmm_map_page that make sure the next table down exists. */
    method EnsureTable(g: nat, v: nat, lo: nat, ghost root: nat) returns (child: nat)
      requires Valid() && Space(root) && v < USER_PAGES && 2 <= lo <= 4
      requires TableAt(mem, root, 4, v, lo) == Some(g) && Missing(mem, root, 4, v) <= |Free()|
      modifies this`mem, pmm`freeMemory, pmm`last, pmm.bitmap
      ensures Valid() && Space(root) && Own(root) == old(Own(root)) && Free() <= old(Free())
      ensures TableAt(mem, root, 4, v, lo - 1) == Some(child)
      ensures |Free()| - Missing(mem, root, 4, v) == old(|Free()| - Missing(mem, root, 4, v))
      ensures SameMap(old(mem), mem, root) && Untouched(old(mem), mem, root, old(Own(root)))
      ensures old(Opened(mem, root)) ==> Opened(mem, root)
      ensures StepFurnished(old(mem), mem, root, v, lo)
    {
      hide Tree, Below, Entry, WithEntry, Idx, Walk, TableAt, Missing, Allocator.Free, Untouched, SameMap, SubTree, Under,
        Opened, StepFurnished;
      UserIdx(v);
      TableInTree(mem, root, 4, 256, v, lo);
      MissingFrom(mem, root, 4, v, lo);
      MissingStep(mem, g, lo, v);
      UntouchedAtAll(mem, root, Own(root));
      var e := ReadEntry(g, Idx(v, lo));
      if !Present(e) {
        ghost var mem0, own := mem, Own(root);
        var t := AllocFrame();
        ZeroFrame(t);
        WriteEntry(g, Idx(v, lo), TableEntry(t));
        TableGrown(mem0, mem, root, v, lo, g, t, own);
        OpenedGrown(mem0, mem, root, v, lo, g, t);
        FurnishedGrown(mem0, mem, root, v, lo, g, t);
        child := t;
      } else {
        PresentChild(mem, root, v, lo, g);
        FurnishedAlready(mem, root, v, lo);
        child := FrameOf(e);
      }
    }

    /** The three steps of vmm_map_page together: the page table for v exists afterwards. */
    method EnsurePath(root: nat, v: nat) returns (pt: nat)
      requires Valid() && Space(root) && v < USER_PAGES && Missing(mem, root, 4, v) <= |Free()|
      modifies this`mem, pmm`freeMemory, pmm`last, pmm.bitmap
      ensures Valid() && Space(root) && Own(root) == old(Own(root)) && Free() <= old(Free())
      ensures TableAt(mem, root, 4, v, 1) == Some(pt) && pt < |mem|
      ensures |Free()| == old(|Free()| - Missing(mem, root, 4, v))
      ensures SameMap(old(mem), mem, root) && Untouched(old(mem), mem, root, old(Own(root)))
      ensures old(Opened(mem, root)) ==> Opened(mem, root)
      ensures Furnished(old(mem), mem, root, v)
    {
      hide Tree, Below, Entry, WithEntry, Idx, Walk, TableAt, Missing, Allocator.Free, Untouched, SameMap, SubTree, Under, Frames,
        Opened, StepFurnished, Furnished;
      ghost var mem0, own := mem, Own(root);
      TableTop(mem, root, 4, v);
      var pdpt := EnsureTable(root, v, 4, root);
      ghost var mem1 := mem;
      var pd := EnsureTable(pdpt, v, 3, root);
      ghost var mem2 := mem;
      UntouchedTwice(mem0, mem1, mem2, root, own);
      SameMapTwice(mem0, mem1, mem2, root);
      pt := EnsureTable(pd, v, 2, root);
      UntouchedTwice(mem0, mem2, mem, root, own);
      SameMapTwice(mem0, mem2, mem, root);
      ThreeSteps(mem0, mem1, mem2, mem, root, v);
      NoneMissing(mem, root, v, pt);
    }

    /** vmm_map_page: the tables, then the leaf. Mapping a page twice drops the first frame. */
    method MapPage(root: nat, v: nat, p: nat, flags: nat)
      requires Valid() && Space(root) && v < USER_PAGES && flags < 4096
      requires p < |mem| && p != 0 && p != kernelRoot && p !in Own(root)
      requires Missing(mem, root, 4, v) <= |Free()|
      modifies this`mem, pmm`freeMemory, pmm`last, pmm.bitmap
      ensures Valid() && Space(root) && Free() <= old(Free())
      ensures |Free()| == old(|Free()| - Missing(mem, root, 4, v))
      ensures Own(root) == old(Own(root)) - Replaced(old(mem), root, v) + {p}
      ensures Remapped(old(mem), mem, root, v, LeafEntry(p, flags))
      ensures Untouched(old(mem), mem, root, old(Own(root)))
      ensures old(Opened(mem, root)) ==> Opened(mem, root)
      ensures Furnished(old(mem), mem, root, v)
    {
      hide Tree, Below, Entry, WithEntry, Idx, Walk, TableAt, Missing, Allocator.Free, Untouched, SameMap, SubTree, Under, Frames,
        Remapped, LeafEntry, Opened, Replaced, Furnished;
      ghost var mem0, own := mem, Own(root);
      var pt := EnsurePath(root, v);
      ghost var mem1 := mem;
      LeafFits(p, flags);
      WriteEntry(pt, Idx(v, 1), LeafEntry(p, flags));
      LeafMapped(mem1, mem, root, v, p, flags, pt, own);
      LeafFurnished(mem0, mem1, mem, root, v, p, flags, pt);
      UntouchedTwice(mem0, mem1, mem, root, own);
      RemappedFrom(mem0, mem1, mem, root, v, LeafEntry(p, flags));
    }

    // ----- tearing down

    /** pmm_free_page of a frame that is not free already. */
    method FreeFrame(f: nat)
      requires Valid() && 0 < f < |mem| && f != kernelRoot && f !in Free()
      modifies pmm`freeMemory, pmm.bitmap
      ensures Valid() && Free() == old(Free()) + {f}
    {
      hide Allocator.Free;
      assert f * PAGE / PAGE == f;
      pmm.FreePage(f * PAGE);
    }

    /** f heads a proper tree, and neither f nor any frame below it is free or reserved. */
    ghost predicate Releasable(f: nat, level: nat, n: nat)
      requires Valid() && 1 <= level <= 4 && n <= 512
      reads this, pmm, pmm.bitmap
    {
      CanGo(Free(), mem, f, level, n, kernelRoot)
    }

    /** The innermost loop, over the pages of one page table, and then the table. */
    method FreePageTable(pt: nat)
      requires Valid() && Releasable(pt, 1, 512)
      modifies pmm`freeMemory, pmm.bitmap
      ensures Valid() && Free() == Gone(old(Free()), mem, pt, 1, 512) + {pt}
    {
      hide Tree, Below, Entry, Allocator.Free, Under, SubTree, Gone;
      ghost var free := Free();
      GoneNone(free, mem, pt, 1);
      var i := 0;
      while i < 512
        invariant 0 <= i <= 512 && Valid() && Free() == Gone(free, mem, pt, 1, i)
      {
        GoneStep(free, mem, pt, 1, 512, i, kernelRoot);
        var e := ReadEntry(pt, i);
        if Present(e) {
          FreeFrame(FrameOf(e));
        }
        i := i + 1;
      }
      GoneNotSelf(free, mem, pt, 1, 512);
      FreeFrame(pt);
    }

    /** The loop over a page directory, and then the directory. */
    method FreePageDirectory(pd: nat)
      requires Valid() && Releasable(pd, 2, 512)
      modifies pmm`freeMemory, pmm.bitmap
      ensures Valid() && Free() == Gone(old(Free()), mem, pd, 2, 512) + {pd}
    {
      hide Tree, Below, Entry, Allocator.Free, Under, SubTree, Gone;
      ghost var free := Free();
      GoneNone(free, mem, pd, 2);
      var i := 0;
      while i < 512
        invariant 0 <= i <= 512 && Valid() && Free() == Gone(free, mem, pd, 2, i)
      {
        GoneStep(free, mem, pd, 2, 512, i, kernelRoot);
        var e := ReadEntry(pd, i);
        if Present(e) {
          FreePageTable(FrameOf(e));
        }
        i := i + 1;
      }
      GoneNotSelf(free, mem, pd, 2, 512);
      FreeFrame(pd);
    }

    /** The loop over a page-directory-pointer table, and then the table. */
    method FreePointerTable(pdpt: nat)
      requires Valid() && Releasable(pdpt, 3, 512)
      modifies pmm`freeMemory, pmm.bitmap
      ensures Valid() && Free() == Gone(old(Free()), mem, pdpt, 3, 512) + {pdpt}
    {
      hide Tree, Below, Entry, Allocator.Free, Under, SubTree, Gone;
      ghost var free := Free();
      GoneNone(free, mem, pdpt, 3);
      var i := 0;
      while i < 512
        invariant 0 <= i <= 512 && Valid() && Free() == Gone(free, mem, pdpt, 3, i)
      {
        GoneStep(free, mem, pdpt, 3, 512, i, kernelRoot);
        var e := ReadEntry(pdpt, i);
        if Present(e) {
          FreePageDirectory(FrameOf(e));
        }
        i := i + 1;
      }
      GoneNotSelf(free, mem, pdpt, 3, 512);
      FreeFrame(pdpt);
    }

    /** The outermost loop, over the lower half of the root, and then the root. */
    method FreeRoot(root: nat)
      requires Valid() && Releasable(root, 4, 256)
      modifies pmm`freeMemory, pmm.bitmap
      ensures Valid() && Free() == Gone(old(Free()), mem, root, 4, 256) + {root}
    {
      hide Tree, Below, Entry, Allocator.Free, Under, SubTree, Gone;
      ghost var free := Free();
      GoneNone(free, mem, root, 4);
      var i := 0;
      while i < 256
        invariant 0 <= i <= 256 && Valid() && Free() == Gone(free, mem, root, 4, i)
      {
        GoneStep(free, mem, root, 4, 256, i, kernelRoot);
        var e := ReadEntry(root, i);
        if Present(e) {
          FreePointerTable(FrameOf(e));
        }
        i := i + 1;
      }
      GoneNotSelf(free, mem, root, 4, 256);
      FreeFrame(root);
    }

    /** vmm_free_pagemap: every frame of the address space is given back, each exactly once, and
        nothing else is. */
    method FreePagemap(root: nat)
      requires Valid() && (root != 0 ==> Space(root))
      modifies pmm`freeMemory, pmm.bitmap
      ensures Valid() && Free() == if root == 0 then old(Free()) else old(Free()) + Frames(mem, root)
    {
      hide Tree, Below, Entry, Allocator.Free;
      if root == 0 { return; }
      BelowSelf(mem, root, 4, 256);
      FreeRoot(root);
    }

    // ----- checks on user addresses

    /** The four-level test that both checks make for one page. */
    method CheckPage(root: nat, v: nat, write: bool) returns (ok: bool)
      requires PathIn(mem, root, 4, v)
      ensures ok <==> UserPage(mem, root, 4, v, write)
      ensures ok ==> Walk(mem, root, 4, v).Some?
    {
      hide Entry, Idx;
      var e := ReadEntry(root, Idx(v, 4));
      if !Present(e) || !UserBit(e) { return false; }
      var pdpt := FrameOf(e);
      e := ReadEntry(pdpt, Idx(v, 3));
      if !Present(e) || !UserBit(e) { return false; }
      var pd := FrameOf(e);
      e := ReadEntry(pd, Idx(v, 2));
      if !Present(e) || !UserBit(e) { return false; }
      e := ReadEntry(FrameOf(e), Idx(v, 1));
      if !Present(e) || !UserBit(e) { return false; }
      if write && !Writable(e) { return false; }
      return true;
    }

    /** The loop over the pages from that of vaddr to that of end - 1. */
    method CheckPages(root: nat, vaddr: nat, end: nat, write: bool) returns (ok: bool)
      requires TablesIn(mem, root) && vaddr < end < 0x8000_0000_0000
      ensures ok <==> forall a :: vaddr <= a < end ==> UserByte(mem, root, a, write)
    {
      hide UserPage, UserByte, PageBase, PathIn;
      var page, last := PageBase(vaddr), PageBase(end - 1);
      BasesOf(vaddr);
      BasesOf(end - 1);
      while page <= last
        invariant page % 4096 == 0 && page <= last + 4096 && vaddr < page + 4096
        invariant forall a :: vaddr <= a < page ==> UserByte(mem, root, a, write)
        decreases last + 4096 - page
      {
        var good := CheckPage(root, page / 4096, write);
        OnePage(mem, root, page, write);
        if !good {
          assert !UserByte(mem, root, if page < vaddr then vaddr else page, write);
          return false;
        }
        NextBase(page);
        page := page + 4096;
      }
      return true;
    }

    /** vmm_check_user_ptr: the per-page loop decides the per-byte question. */
    method CheckUserPtr(root: nat, vaddr: nat, size: nat, write: bool) returns (ok: bool)
      requires TablesIn(mem, root)
      requires vaddr < 0x1_0000_0000_0000_0000 && size < 0x1_0000_0000_0000_0000
      ensures ok <==> (size == 0 ||
        (vaddr + size < 0x8000_0000_0000 && forall a :: vaddr <= a < vaddr + size ==> UserByte(mem, root, a, write)))
    {
      hide UserPage, UserByte, PathIn;
      if size == 0 { return true; }
      if vaddr >= 0x8000_0000_0000 { return false; }
      var end := (vaddr + size) % 0x1_0000_0000_0000_0000;
      Wrap(vaddr, size);
      if end < vaddr { return false; }
      if end >= 0x8000_0000_0000 { return false; }
      ok := CheckPages(root, vaddr, end, write);
    }

    /** One byte of user memory, through the page tables. */
    method ReadUser(root: nat, a: nat) returns (b: Byte)
      requires UserByte(mem, root, a, false)
      requires Walk(mem, root, 4, a / 4096).Some? && FrameOf(Walk(mem, root, 4, a / 4096).value) < |mem|
      ensures b == ByteAt(mem, root, a)
    {
      b := mem[FrameOf(Walk(mem, root, 4, a / 4096).value)][a % 4096];
    }

    /** vmm_check_user_string: accepts exactly when a NUL is reached with every byte up to it on
        present user pages; it looks at no other byte. */
    method CheckUserString(root: nat, vaddr: nat) returns (ok: bool)
      requires TablesIn(mem, root) && PagesIn(mem, root)
      ensures ok <==> exists z :: vaddr <= z < 0x8000_0000_0000 && TerminatedAt(mem, root, vaddr, z)
    {
      hide UserPage, Walk, ByteAt, PathIn;
      if vaddr >= 0x8000_0000_0000 { return false; }
      var current := vaddr;
      while true
        invariant vaddr <= current <= 0x8000_0000_0000 && (current == vaddr || current % 4096 == 0)
        invariant forall a :: vaddr <= a < current ==> UserByte(mem, root, a, false) && ByteAt(mem, root, a) != 0
        decreases 0x8000_0000_0000 - current
      {
        if current >= 0x8000_0000_0000 { return false; }
        var page := current - current % 4096;
        var good := CheckPage(root, page / 4096, false);
        assert current / 4096 == page / 4096;
        if !good {
          assert !UserByte(mem, root, current, false);
          return false;
        }
        forall a | page <= a < page + 4096 ensures a / 4096 == page / 4096 && UserByte(mem, root, a, false) {
        }
        var limit := page + 4096 - current;
        var i := 0;
        while i < limit
          invariant 0 <= i <= limit
          invariant forall a :: vaddr <= a < current + i ==> UserByte(mem, root, a, false) && ByteAt(mem, root, a) != 0
        {
          assert (current + i) / 4096 == page / 4096;
          var b := ReadUser(root, current + i);
          if b == 0 {
            assert TerminatedAt(mem, root, vaddr, current + i);
            return true;
          }
          i := i + 1;
        }
        current := page + 4096;
      }
    }
  }

  /** Every table on the path of page v is in memory. */
  ghost predicate PathIn(mem: Memory, f: nat, level: nat, v: nat)
    requires 1 <= level <= 4
    decreases level
  {
    f < |mem| && (level > 1 && Present(Entry(mem[f], Idx(v, level))) ==>
      PathIn(mem, FrameOf(Entry(mem[f], Idx(v, level))), level - 1, v))
  }

  /** Every table that a user address can lead through is in memory. */
  ghost predicate TablesIn(mem: Memory, root: nat) {
    forall v: nat :: v < USER_PAGES ==> PathIn(mem, root, 4, v)
  }

  /** And so is every mapped page. */
  ghost predicate PagesIn(mem: Memory, root: nat) {
    forall v: nat :: v < USER_PAGES && Walk(mem, root, 4, v).Some? ==> FrameOf(Walk(mem, root, 4, v).value) < |mem|
  }

  /** A proper tree is all in memory. */
  lemma TreeIn(mem: Memory, root: nat)
    requires root < |mem| && Tree(mem, root, 4, 256)
    ensures TablesIn(mem, root) && PagesIn(mem, root)
  {
    hide Tree, Below, Walk, Idx, Entry;
    forall v: nat | v < USER_PAGES
      ensures PathIn(mem, root, 4, v)
      ensures Walk(mem, root, 4, v).Some? ==> FrameOf(Walk(mem, root, 4, v).value) < |mem|
    {
      UserIdx(v);
      LeafInTree(mem, root, 4, 256, v);
      TreePathIn(mem, root, 4, 256, v);
    }
  }

  lemma {:induction false} TreePathIn(mem: Memory, f: nat, level: nat, n: nat, v: nat)
    requires 1 <= level <= 4 && f < |mem| && n <= 512 && Tree(mem, f, level, n) && Idx(v, level) < n
    ensures PathIn(mem, f, level, v)
    decreases level
  {
    hide Tree, Below, Under, Idx, Entry;
    var e := Entry(mem[f], Idx(v, level));
    BelowEntry(mem, f, level, n, Idx(v, level));
    if level > 1 && Present(e) {
      UnderTable(mem, e, level - 1);
      TreePathIn(mem, FrameOf(e), level - 1, 512, v);
    }
  }

  /** Page v is present and user at all four levels, and its leaf writable if that is asked. */
  ghost predicate UserPage(mem: Memory, f: nat, level: nat, v: nat, write: bool)
    requires 1 <= level <= 4
    decreases level
  {
    && f < |mem| && Present(Entry(mem[f], Idx(v, level))) && UserBit(Entry(mem[f], Idx(v, level)))
    && if level == 1 then write ==> Writable(Entry(mem[f], Idx(v, 1)))
       else UserPage(mem, FrameOf(Entry(mem[f], Idx(v, level))), level - 1, v, write)
  }

  /** Behind an open path the leaf alone decides. */
  lemma {:induction false} LeafDecides(mem: Memory, f: nat, level: nat, v: nat, write: bool)
    requires 1 <= level <= 4 && UserPath(mem, f, level, v)
    ensures UserPage(mem, f, level, v, write) <==>
      var e := Walk(mem, f, level, v); e.Some? && UserBit(e.value) && (write ==> Writable(e.value))
    decreases level
  {
    if f < |mem| && Present(Entry(mem[f], Idx(v, level))) && level > 1 {
      LeafDecides(mem, FrameOf(Entry(mem[f], Idx(v, level))), level - 1, v, write);
    }
  }

  ghost predicate UserByte(mem: Memory, root: nat, a: nat, write: bool) {
    UserPage(mem, root, 4, a / 4096, write)
  }

  /** An address with its low twelve bits cleared. */
  function PageBase(a: nat): nat { a - a % 4096 }

  lemma BasesOf(a: nat)
    ensures PageBase(a) % 4096 == 0 && PageBase(a) <= a < PageBase(a) + 4096
  {
  }

  lemma NextBase(page: nat)
    requires page % 4096 == 0
    ensures (page + 4096) % 4096 == 0
  {
  }

  /** 64-bit addition of a user address and a size wraps exactly when the result is smaller. */
  lemma Wrap(vaddr: nat, size: nat)
    requires vaddr < 0x8000_0000_0000 && size < 0x1_0000_0000_0000_0000
    ensures var end := (vaddr + size) % 0x1_0000_0000_0000_0000;
            if vaddr + size < 0x1_0000_0000_0000_0000 then end == vaddr + size else end < vaddr
  {
    if vaddr + size >= 0x1_0000_0000_0000_0000 {
      assert (vaddr + size) % 0x1_0000_0000_0000_0000 == vaddr + size - 0x1_0000_0000_0000_0000;
    }
  }

  /** The bytes of a page stand or fall together. */
  lemma OnePage(mem: Memory, root: nat, page: nat, write: bool)
    requires page % 4096 == 0
    ensures forall a :: page <= a < page + 4096 ==> (UserByte(mem, root, a, write) <==> UserPage(mem, root, 4, page / 4096, write))
  {
    forall a | page <= a < page + 4096 ensures a / 4096 == page / 4096 {
    }
  }

  ghost function ByteAt(mem: Memory, root: nat, a: nat): int {
    var e := Walk(mem, root, 4, a / 4096);
    if e.Some? && FrameOf(e.value) < |mem| then mem[FrameOf(e.value)][a % 4096] else -1
  }

  /** The string at vaddr ends at z: the first NUL, with every byte up to it on user pages. */
  ghost predicate TerminatedAt(mem: Memory, root: nat, vaddr: nat, z: nat) {
    && vaddr <= z && ByteAt(mem, root, z) == 0
    && forall a :: vaddr <= a <= z ==> UserByte(mem, root, a, false)
  }

  /** The frame that mapping page v again would drop. */
  ghost function Replaced(mem: Memory, root: nat, v: nat): set<nat> {
    if Walk(mem, root, 4, v).Some? then {FrameOf(Walk(mem, root, 4, v).value)} else {}
  }

  /** The translation is updated at v and nowhere else in the user half. */
  ghost predicate Remapped(mem: Memory, mem': Memory, root: nat, v: nat, e: nat) {
    forall w: nat :: w < USER_PAGES ==> Walk(mem', root, 4, w) == if w == v then Some(e) else Walk(mem, root, 4, w)
  }

  lemma SameMapTwice(a: Memory, b: Memory, c: Memory, root: nat)
    requires SameMap(a, b, root) && SameMap(b, c, root)
    ensures SameMap(a, c, root)
  {
    hide Walk;
  }

  lemma RemappedFrom(a: Memory, b: Memory, c: Memory, root: nat, v: nat, e: nat)
    requires SameMap(a, b, root) && Remapped(b, c, root, v, e) && v < USER_PAGES
    ensures Remapped(a, c, root, v, e) && Replaced(a, root, v) == Replaced(b, root, v)
  {
    hide Walk;
  }

  lemma NoneMissing(mem: Memory, root: nat, v: nat, pt: nat)
    requires root < |mem| && Tree(mem, root, 4, 256) && v < USER_PAGES && TableAt(mem, root, 4, v, 1) == Some(pt)
    ensures Missing(mem, root, 4, v) == 0 && pt < |mem|
  {
    UserIdx(v);
    TableInTree(mem, root, 4, 256, v, 1);
    MissingFrom(mem, root, 4, v, 1);
  }

  lemma LeafFits(p: nat, flags: nat)
    requires p < 0x100_0000_0000 && flags < 4096
    ensures LeafEntry(p, flags) < 0x1_0000_0000_0000_0000
  {
  }

  /** The last step of a mapping. */
  lemma LeafMapped(mem: Memory, mem': Memory, root: nat, v: nat, p: nat, flags: nat, pt: nat, own: set<nat>)
    requires root < |mem| && Tree(mem, root, 4, 256) && v < USER_PAGES && flags < 4096
    requires TableAt(mem, root, 4, v, 1) == Some(pt) && pt < |mem|
    requires LeafEntry(p, flags) < 0x1_0000_0000_0000_0000 && p < |mem| && p !in Frames(mem, root) && Frames(mem, root) <= own
    requires mem' == mem[pt := WithEntry(mem[pt], Idx(v, 1), LeafEntry(p, flags))]
    ensures Tree(mem', root, 4, 256) && Remapped(mem, mem', root, v, LeafEntry(p, flags))
    ensures Frames(mem', root) == Frames(mem, root) - Replaced(mem, root, v) + {p}
    ensures Replaced(mem, root, v) <= Frames(mem, root) && Untouched(mem, mem', root, own)
    ensures Opened(mem, root) ==> Opened(mem', root)
  {
    hide Tree, Below, Entry, WithEntry, Idx, Walk, TableAt, SubTree, LeafEntry, Opened;
    var e := LeafEntry(p, flags);
    UserIdx(v);
    LeafPresent(p, flags);
    LeafUnderItself(mem, e, p);
    assert EntryChanged(mem, mem', root, 4, 256, v, 1, e);
    LeafSetEffect(mem, mem', root, 256, v, e);
    TableUntouched(mem, mem', root, v, 1, e, own);
    OpenedStays(mem, mem', root, v, 1, e, 0);
    LeafInTree(mem, root, 4, 256, v);
    BelowSelf(mem, root, 4, 256);
    forall w: nat | w < USER_PAGES ensures Walk(mem', root, 4, w) == if w == v then Some(e) else Walk(mem, root, 4, w) {
      UserIdx(w);
    }
  }

  /** The leaf itself supplies no table. */
  lemma LeafFurnished(mem0: Memory, mem: Memory, mem': Memory, root: nat, v: nat, p: nat, flags: nat, pt: nat)
    requires root < |mem| && Tree(mem, root, 4, 256) && v < USER_PAGES && flags < 4096
    requires TableAt(mem, root, 4, v, 1) == Some(pt) && pt < |mem|
    requires LeafEntry(p, flags) < 0x1_0000_0000_0000_0000 && p < |mem| && p !in Frames(mem, root)
    requires mem' == mem[pt := WithEntry(mem[pt], Idx(v, 1), LeafEntry(p, flags))]
    requires Furnished(mem0, mem, root, v)
    ensures Furnished(mem0, mem', root, v)
  {
    hide Tree, Below, Entry, WithEntry, Idx, Walk, TableAt, SubTree, LeafEntry, Missing, SamePath;
    var e := LeafEntry(p, flags);
    UserIdx(v);
    LeafPresent(p, flags);
    LeafUnderItself(mem, e, p);
    assert EntryChanged(mem, mem', root, 4, 256, v, 1, e);
    hide EntryChanged;
    forall w: nat | w < USER_PAGES ensures Missing(mem', root, 4, w) == Missing(mem, root, 4, w) {
      UserIdx(w);
      MissingChanged(mem, mem', root, 4, 256, v, 1, e, w);
      if SamePath(v, w, 1, 4) {
        PathShortened(v, w, 1);
        MissingReached(mem, root, 4, v, 1, w);
      }
    }
  }

  lemma PathShortened(v: nat, w: nat, lo: nat)
    requires 1 <= lo < 4 && SamePath(v, w, lo, 4)
    ensures SamePath(v, w, lo + 1, 4)
  {
  }

  lemma FurnishedAlready(mem: Memory, root: nat, v: nat, lo: nat)
    requires 2 <= lo <= 4 && TableAt(mem, root, 4, v, lo - 1).Some?
    ensures StepFurnished(mem, mem, root, v, lo)
  {
    hide Missing, TableAt, SamePath;
    forall w: nat | w < USER_PAGES && SamePath(v, w, lo, 4) ensures Missing(mem, root, 4, w) <= lo - 2 {
      MissingReached(mem, root, 4, v, lo - 1, w);
    }
  }

  lemma LeafPresent(p: nat, flags: nat)
    requires flags < 4096
    ensures Present(LeafEntry(p, flags)) && FrameOf(LeafEntry(p, flags)) == p
  {
  }

  lemma LeafUnderItself(mem: Memory, e: nat, p: nat)
    requires Present(e) && FrameOf(e) == p < |mem|
    ensures Under(mem, e, 0) == {p} && SubTree(mem, e, 0)
  {
  }

  /** One more entry of a tree: its frames are separate from those of the entries before it. */
  lemma OneMoreEntry(mem: Memory, f: nat, level: nat, n: nat, i: nat)
    requires 1 <= level <= 4 && f < |mem| && i < n <= 512 && Tree(mem, f, level, n)
    ensures Below(mem, f, level, i + 1) == Below(mem, f, level, i) + Under(mem, Entry(mem[f], i), level - 1)
    ensures Below(mem, f, level, i) !! Under(mem, Entry(mem[f], i), level - 1)
    ensures Under(mem, Entry(mem[f], i), level - 1) <= Below(mem, f, level, n)
    ensures Present(Entry(mem[f], i)) ==> var c := FrameOf(Entry(mem[f], i));
      && c < |mem|
      && Under(mem, Entry(mem[f], i), level - 1) == {c} + (if level > 1 then Below(mem, c, level - 1, 512) else {})
      && (level > 1 ==> Tree(mem, c, level - 1, 512))
    ensures !Present(Entry(mem[f], i)) ==> Under(mem, Entry(mem[f], i), level - 1) == {}
  {
    TreePrefix(mem, f, level, n, i + 1);
    BelowUnfold(mem, f, level, i + 1);
    BelowEntry(mem, f, level, n, i);
  }

  lemma {:induction false} TreePrefix(mem: Memory, f: nat, level: nat, n: nat, m: nat)
    requires 1 <= level <= 4 && f < |mem| && m <= n <= 512 && Tree(mem, f, level, n)
    ensures Tree(mem, f, level, m)
    decreases n
  {
    if m < n { TreePrefix(mem, f, level, n - 1, m); }
  }

  ghost predicate CanGo(free: set<nat>, mem: Memory, f: nat, level: nat, n: nat, kernelRoot: nat)
    requires 1 <= level <= 4 && n <= 512
  {
    && f < |mem| && f != 0 && f != kernelRoot && f !in free && Tree(mem, f, level, n)
    && Below(mem, f, level, n) !! free && 0 !in Below(mem, f, level, n) && kernelRoot !in Below(mem, f, level, n)
  }

  /** The free frames once those below the first i entries of f have been given back. */
  ghost function Gone(free: set<nat>, mem: Memory, f: nat, level: nat, i: nat): set<nat>
    requires 1 <= level <= 4 && f < |mem| && i <= 512
  {
    free + Below(mem, f, level, i)
  }

  lemma GoneNone(free: set<nat>, mem: Memory, f: nat, level: nat)
    requires 1 <= level <= 4 && f < |mem|
    ensures Gone(free, mem, f, level, 0) == free
  {
  }

  lemma GoneNotSelf(free: set<nat>, mem: Memory, f: nat, level: nat, n: nat)
    requires 1 <= level <= 4 && f < |mem| && n <= 512 && Tree(mem, f, level, n) && f !in free
    ensures f !in Gone(free, mem, f, level, n)
  {
    BelowSelf(mem, f, level, n);
  }

  /** The next entry: what it leads to has not been given back yet, and may be. */
  lemma GoneStep(free: set<nat>, mem: Memory, f: nat, level: nat, n: nat, i: nat, kernelRoot: nat)
    requires 1 <= level <= 4 && i < n <= 512 && CanGo(free, mem, f, level, n, kernelRoot)
    ensures var e, c, gone := Entry(mem[f], i), FrameOf(Entry(mem[f], i)), Gone(free, mem, f, level, i);
      Gone(free, mem, f, level, i + 1) ==
        if !Present(e) then gone
        else if level == 1 || c >= |mem| then gone + {c}
        else Gone(gone, mem, c, level - 1, 512) + {c}
    ensures var e, c, gone := Entry(mem[f], i), FrameOf(Entry(mem[f], i)), Gone(free, mem, f, level, i);
      (Present(e) ==> (0 != c < |mem| && c != kernelRoot && c !in gone
        && (level > 1 ==> CanGo(gone, mem, c, level - 1, 512, kernelRoot))))
  {
    hide Tree, Under, SubTree, Below, Entry;
    OneMoreEntry(mem, f, level, n, i);
    BelowSelf(mem, f, level, n);
    TreePrefix(mem, f, level, n, i);
    BelowPrefix(mem, f, level, n, i);
  }

  lemma {:induction false} BelowPrefix(mem: Memory, f: nat, level: nat, n: nat, m: nat)
    requires 1 <= level <= 4 && f < |mem| && m <= n <= 512
    ensures Below(mem, f, level, m) <= Below(mem, f, level, n)
    decreases n
  {
    if m < n { BelowPrefix(mem, f, level, n - 1, m); }
  }

  /** A missing table supplied: one more frame, one fewer table missing, nothing else different. */
  lemma TableGrown(mem0: Memory, mem: Memory, root: nat, v: nat, lo: nat, g: nat, t: nat, own: set<nat>)
    requires root < |mem0| && Tree(mem0, root, 4, 256) && v < USER_PAGES && 2 <= lo <= 4
    requires TableAt(mem0, root, 4, v, lo) == Some(g) && g < |mem0| && !Present(Entry(mem0[g], Idx(v, lo)))
    requires t < |mem0| <= 0x100_0000_0000 && t !in Frames(mem0, root) && t in own && Frames(mem0, root) <= own && g != t
    requires mem == mem0[t := ZeroPage()][g := WithEntry(mem0[g], Idx(v, lo), TableEntry(t))]
    ensures Tree(mem, root, 4, 256) && Frames(mem, root) == Frames(mem0, root) + {t}
    ensures TableAt(mem, root, 4, v, lo - 1) == Some(t) && Missing(mem, root, 4, v) + 1 == Missing(mem0, root, 4, v)
    ensures SameMap(mem0, mem, root) && Untouched(mem0, mem, root, own)
  {
    hide Tree, Below, Entry, WithEntry, Idx, Walk, TableAt, Missing, Untouched, SameMap, SubTree, Under;
    UserIdx(v);
    var mem1 := mem0[t := ZeroPage()];
    FrameOutside(mem0, root, t, ZeroPage());
    UntouchedOutside(mem0, mem1, root, t, own);
    TableOutside(mem0, mem1, root, v, lo, t);
    ZeroTable(mem1, t, lo - 1);
    assert TableAdded(mem1, mem, root, 256, v, lo, t);
    TableAddedEffect(mem1, mem, root, 256, v, lo, t);
    TableUntouched(mem1, mem, root, v, lo, TableEntry(t), own);
    SameMapAdded(mem0, mem1, mem, root);
    UntouchedTwice(mem0, mem1, mem, root, own);
  }

  lemma OpenedGrown(mem0: Memory, mem: Memory, root: nat, v: nat, lo: nat, g: nat, t: nat)
    requires root < |mem0| && Tree(mem0, root, 4, 256) && v < USER_PAGES && 2 <= lo <= 4
    requires TableAt(mem0, root, 4, v, lo) == Some(g) && g < |mem0| && g != t
    requires t < |mem0| <= 0x100_0000_0000 && t !in Frames(mem0, root)
    requires mem == mem0[t := ZeroPage()][g := WithEntry(mem0[g], Idx(v, lo), TableEntry(t))]
    ensures Opened(mem0, root) ==> Opened(mem, root)
  {
    hide Tree, Below, Entry, WithEntry, Idx, Walk, TableAt, Missing, SubTree, Under, Opened;
    UserIdx(v);
    var mem1 := mem0[t := ZeroPage()];
    FrameOutside(mem0, root, t, ZeroPage());
    TableOutside(mem0, mem1, root, v, lo, t);
    ZeroTable(mem1, t, lo - 1);
    OpenedOutside(mem0, root, t, ZeroPage());
    OpenedTable(mem1, t, lo - 1);
    OpenedStays(mem1, mem, root, v, lo, TableEntry(t), lo - 1);
  }

  lemma FurnishedGrown(mem0: Memory, mem: Memory, root: nat, v: nat, lo: nat, g: nat, t: nat)
    requires root < |mem0| && Tree(mem0, root, 4, 256) && v < USER_PAGES && 2 <= lo <= 4
    requires TableAt(mem0, root, 4, v, lo) == Some(g) && g < |mem0| && g != t && !Present(Entry(mem0[g], Idx(v, lo)))
    requires t < |mem0| <= 0x100_0000_0000 && t !in Frames(mem0, root)
    requires mem == mem0[t := ZeroPage()][g := WithEntry(mem0[g], Idx(v, lo), TableEntry(t))]
    ensures StepFurnished(mem0, mem, root, v, lo)
  {
    hide Tree, Below, Entry, WithEntry, Idx, Walk, TableAt, Missing, SubTree, Under, SamePath;
    UserIdx(v);
    var mem1 := mem0[t := ZeroPage()];
    FrameOutside(mem0, root, t, ZeroPage());
    TableOutside(mem0, mem1, root, v, lo, t);
    ZeroTable(mem1, t, lo - 1);
    assert EntryChanged(mem1, mem, root, 4, 256, v, lo, TableEntry(t));
    hide EntryChanged;
    forall w: nat | w < USER_PAGES
      ensures Missing(mem, root, 4, w) ==
        if SamePath(v, w, lo, 4) then Least(Missing(mem0, root, 4, w), lo - 2) else Missing(mem0, root, 4, w)
    {
      UserIdx(w);
      MissingFramed(mem0, mem1, root, 4, 256, w);
      MissingChanged(mem1, mem, root, 4, 256, v, lo, TableEntry(t), w);
      if SamePath(v, w, lo, 4) {
        MissingStopped(mem1, root, 4, v, lo, w);
        ZeroWalk(mem1, t, lo - 1, w);
      }
    }
  }

  /** A whole life of an address space: made, given fresh frames at distinct pages, and torn down. The
      allocator ends with exactly the frames it started with. */
  method BuildAndFree(m: Machine, vs: seq<nat>, flags: nat)
    requires m.Valid() && flags < 4096 && forall i :: 0 <= i < |vs| ==> vs[i] < USER_PAGES
    requires forall i, j :: 0 <= i < j < |vs| ==> vs[i] != vs[j]
    requires |m.Free()| >= 1 + Need(vs)
    modifies m`mem, m.pmm`freeMemory, m.pmm`last, m.pmm.bitmap
    ensures m.Valid() && m.Free() == old(m.Free())
  {
    hide Tree, Below, Entry, Walk, Missing, Allocator.Free, Untouched, Frames, LeafEntry, Remapped, TablesFor, Furnished,
      EmptySpace, Opened, Need, Lacking;
    ghost var free0 := m.Free();
    var root := m.NewPagemap();
    SpaceIsEmpty(m.mem, root, vs);
    TablesForNone(m.mem, root);
    assert vs[..0] == [];
    var i := 0;
    while i < |vs|
      invariant 0 <= i <= |vs| && m.Valid() && m.Space(root) && root != 0
      invariant m.Own(root) == free0 && |m.Free()| == |free0| - 1 - Need(vs[..i])
      invariant Unmapped(m.mem, root, vs, i) && TablesFor(m.mem, root, vs[..i])
    {
      ghost var mem0 := m.mem;
      assert vs[..i + 1] == vs[..i] + [vs[i]];
      NeedNext(vs[..i], vs[i]);
      NeedGrows(vs, i + 1);
      LackingNow(m.mem, root, vs[..i], vs[i]);
      var p := MapFreshFrame(m, root, vs[i], flags);
      TablesForNext(mem0, m.mem, root, vs[..i], vs[i]);
      NextUnmapped(mem0, m.mem, root, vs, i, LeafEntry(p, flags));
      i := i + 1;
    }
    m.FreePagemap(root);
  }

  method MapFreshFrame(m: Machine, root: nat, v: nat, flags: nat) returns (p: nat)
    requires m.Valid() && m.Space(root) && v < USER_PAGES && flags < 4096
    requires |m.Free()| > Missing(m.mem, root, 4, v) && Walk(m.mem, root, 4, v) == None
    modifies m`mem, m.pmm`freeMemory, m.pmm`last, m.pmm.bitmap
    ensures m.Valid() && m.Space(root) && m.Own(root) == old(m.Own(root))
    ensures |m.Free()| == |old(m.Free())| - 1 - Missing(old(m.mem), root, 4, v)
    ensures Furnished(old(m.mem), m.mem, root, v)
    ensures Remapped(old(m.mem), m.mem, root, v, LeafEntry(p, flags))
  {
    hide Tree, Below, Entry, Walk, Missing, Allocator.Free, Untouched, Frames, LeafEntry, Remapped, Furnished, Opened;
    ghost var free := m.Free();
    p := m.AllocFrame();
    assert |m.Free()| == |free| - 1;
    m.MapPage(root, v, p, flags);
  }

  lemma LackingNow(mem: Memory, root: nat, vs: seq<nat>, v: nat)
    requires TablesFor(mem, root, vs) && v < USER_PAGES
    ensures Missing(mem, root, 4, v) == Lacking(vs, v)
  {
  }

  /** The pages of vs from index i on are not mapped. */
  ghost predicate Unmapped(mem: Memory, root: nat, vs: seq<nat>, i: nat) {
    forall j :: i <= j < |vs| ==> Walk(mem, root, 4, vs[j]) == None
  }

  lemma SpaceIsEmpty(mem: Memory, root: nat, vs: seq<nat>)
    requires EmptySpace(mem, root) && forall j :: 0 <= j < |vs| ==> vs[j] < USER_PAGES
    ensures Unmapped(mem, root, vs, 0)
  {
  }

  lemma NextUnmapped(mem: Memory, mem': Memory, root: nat, vs: seq<nat>, i: nat, e: nat)
    requires i < |vs| && Unmapped(mem, root, vs, i) && Remapped(mem, mem', root, vs[i], e)
    requires forall j :: 0 <= j < |vs| ==> vs[j] < USER_PAGES
    requires forall j, k :: 0 <= j < k < |vs| ==> vs[j] != vs[k]
    ensures Unmapped(mem', root, vs, i + 1) && Replaced(mem, root, vs[i]) == {}
  {
  }

  /** No user page is mapped, and mapping one takes three tables. */
  ghost predicate EmptySpace(mem: Memory, root: nat) {
    forall v: nat :: v < USER_PAGES ==> Walk(mem, root, 4, v) == None && Missing(mem, root, 4, v) == 3
  }

  lemma EmptyLowerHalf(mem: Memory, root: nat)
    requires root < |mem| && forall j :: 0 <= j < 256 ==> Entry(mem[root], j) == 0
    ensures Tree(mem, root, 4, 256) && Below(mem, root, 4, 256) == {}
    ensures EmptySpace(mem, root) && Opened(mem, root)
  {
    hide Idx, Entry;
    EmptyEntries(mem, root, 256);
    forall v: nat | v < USER_PAGES
      ensures Walk(mem, root, 4, v) == None && Missing(mem, root, 4, v) == 3 && UserPath(mem, root, 4, v)
    {
      UserIdx(v);
    }
  }

  lemma {:induction false} EmptyEntries(mem: Memory, root: nat, n: nat)
    requires root < |mem| && n <= 256 && forall j :: 0 <= j < 256 ==> Entry(mem[root], j) == 0
    ensures Tree(mem, root, 4, n) && Below(mem, root, 4, n) == {}
  {
    if n > 0 { EmptyEntries(mem, root, n - 1); }
  }

  lemma UntouchedAtAll(mem: Memory, root: nat, own: set<nat>)
    requires root < |mem|
    ensures Untouched(mem, mem, root, own) && SameMap(mem, mem, root)
  {
  }

  /** Writing a frame outside an address space does not matter to it. */
  lemma FrameOutside(mem: Memory, root: nat, t: nat, page: Page)
    requires root < |mem| && t < |mem| && Tree(mem, root, 4, 256) && t !in Frames(mem, root)
    ensures var mem' := mem[t := page];
      Tree(mem', root, 4, 256) && Frames(mem', root) == Frames(mem, root) && SameMap(mem, mem', root)
  {
    hide Tree, Below, Entry, Idx, Walk;
    var mem' := mem[t := page];
    BelowFramed(mem, mem', root, 4, 256);
    forall v: nat | v < USER_PAGES ensures Walk(mem', root, 4, v) == Walk(mem, root, 4, v) {
      UserIdx(v);
      WalkFramed(mem, mem', root, 4, 256, v);
    }
  }

  lemma OpenedOutside(mem: Memory, root: nat, t: nat, page: Page)
    requires root < |mem| && t < |mem| && Tree(mem, root, 4, 256) && t !in Frames(mem, root)
    ensures Opened(mem, root) ==> Opened(mem[t := page], root)
  {
    hide Tree, Below, Entry, Idx, UserPath;
    var mem' := mem[t := page];
    if Opened(mem, root) {
      forall v: nat | v < USER_PAGES ensures UserPath(mem', root, 4, v) {
        UserIdx(v);
        UserFramed(mem, mem', root, 4, 256, v);
      }
    }
  }

  lemma OpenedTable(mem: Memory, t: nat, level: nat)
    requires 1 <= level <= 3 && t < |mem| && mem[t] == ZeroPage()
    ensures forall w: nat :: w < USER_PAGES ==> UserEntry(mem, TableEntry(t), level, w)
  {
    hide UserEntry;
    forall w: nat | w < USER_PAGES ensures UserEntry(mem, TableEntry(t), level, w) {
      ZeroUser(mem, t, level, w);
    }
  }

  /** A leaf, or an entry that lets user mode through, keeps the user half open. */
  lemma OpenedStays(mem: Memory, mem': Memory, root: nat, v: nat, lo: nat, e: nat, level: nat)
    requires EntryChanged(mem, mem', root, 4, 256, v, lo, e) && level == lo - 1 <= 3
    requires forall w: nat :: w < USER_PAGES ==> UserEntry(mem, e, level, w)
    ensures Opened(mem, root) ==> Opened(mem', root)
  {
    hide EntryChanged, UserPath, UserEntry, Idx;
    if Opened(mem, root) {
      forall w: nat | w < USER_PAGES ensures UserPath(mem', root, 4, w) {
        UserIdx(w);
        ChangedUser(mem, mem', root, 4, 256, v, lo, e, w);
      }
    }
  }

  lemma UntouchedOutside(mem: Memory, mem': Memory, root: nat, t: nat, own: set<nat>)
    requires root < |mem| && t < |mem| && Tree(mem, root, 4, 256) && t !in Frames(mem, root) && t in own
    requires |mem'| == |mem| && forall x :: 0 <= x < |mem| && x != t ==> mem'[x] == mem[x]
    ensures Untouched(mem, mem', root, own)
  {
    hide Tree, Below, Entry, Idx, Walk;
    forall v: nat | v < USER_PAGES && Walk(mem, root, 4, v).Some? ensures FrameOf(Walk(mem, root, 4, v).value) != t {
      UserIdx(v);
      LeafInTree(mem, root, 4, 256, v);
    }
  }

  lemma {:induction false} TableFramed(mem: Memory, mem': Memory, f: nat, level: nat, n: nat, v: nat, lo: nat)
    requires 1 <= lo <= level <= 4 && f < |mem| == |mem'| && n <= 512 && Tree(mem, f, level, n) && mem'[f] == mem[f]
    requires forall x :: x in Below(mem, f, level, n) && x < |mem| ==> mem'[x] == mem[x]
    requires Idx(v, level) < n
    ensures TableAt(mem', f, level, v, lo) == TableAt(mem, f, level, v, lo)
    ensures Missing(mem', f, level, v) == Missing(mem, f, level, v)
    decreases level
  {
    var e := Entry(mem[f], Idx(v, level));
    if Present(e) && level > 1 {
      BelowEntry(mem, f, level, n, Idx(v, level));
      TableFramed(mem, mem', FrameOf(e), level - 1, 512, v, if lo < level then lo else level - 1);
    }
  }

  lemma TableOutside(mem: Memory, mem': Memory, root: nat, v: nat, lo: nat, t: nat)
    requires root < |mem| && t < |mem| && Tree(mem, root, 4, 256) && t !in Frames(mem, root)
    requires |mem'| == |mem| && forall x :: 0 <= x < |mem| && x != t ==> mem'[x] == mem[x]
    requires v < USER_PAGES && 1 <= lo <= 4
    ensures TableAt(mem', root, 4, v, lo) == TableAt(mem, root, 4, v, lo)
    ensures Missing(mem', root, 4, v) == Missing(mem, root, 4, v)
  {
    UserIdx(v);
    TableFramed(mem, mem', root, 4, 256, v, lo);
  }

  /** An entry written into a table of the path of v touches no mapped page and no kernel entry. */
  lemma TableUntouched(mem: Memory, mem': Memory, root: nat, v: nat, lo: nat, e: nat, own: set<nat>)
    requires EntryChanged(mem, mem', root, 4, 256, v, lo, e) && v < USER_PAGES && Frames(mem, root) <= own
    ensures Untouched(mem, mem', root, own)
  {
    hide Tree, Below, Entry, WithEntry, Idx, Walk, TableAt, SubTree, Under;
    var g := TableAt(mem, root, 4, v, lo).value;
    UserIdx(v);
    TableInTree(mem, root, 4, 256, v, lo);
    forall w: nat | w < USER_PAGES && Walk(mem, root, 4, w).Some? ensures FrameOf(Walk(mem, root, 4, w).value) != g {
      UserIdx(w);
      LeafNotTable(mem, root, 4, 256, v, w, lo);
    }
    forall i | 256 <= i < 512 ensures Entry(mem'[root], i) == Entry(mem[root], i) {
      if g == root {
        RootOnlyTop(mem, root, v, lo);
        EntryStored(mem[root], Idx(v, lo), e, i);
      }
    }
  }

  /** The root is not a table of a lower level. */
  lemma RootOnlyTop(mem: Memory, root: nat, v: nat, lo: nat)
    requires 1 <= lo <= 4 && root < |mem| && Tree(mem, root, 4, 256) && v < USER_PAGES
    requires TableAt(mem, root, 4, v, lo) == Some(root)
    ensures lo == 4
  {
    UserIdx(v);
    if lo < 4 {
      BelowEntry(mem, root, 4, 256, Idx(v, 4));
      TableInTree(mem, FrameOf(Entry(mem[root], Idx(v, 4))), 3, 512, v, lo);
    }
  }

  lemma SameMapAdded(a: Memory, b: Memory, c: Memory, root: nat)
    requires SameMap(a, b, root) && forall w :: Idx(w, 4) < 256 ==> Walk(c, root, 4, w) == Walk(b, root, 4, w)
    ensures SameMap(a, c, root) && SameMap(b, c, root)
  {
    hide Walk, Idx;
    forall w: nat | w < USER_PAGES ensures Walk(c, root, 4, w) == Walk(b, root, 4, w) {
      UserIdx(w);
    }
  }

  lemma PresentChild(mem: Memory, root: nat, v: nat, lo: nat, g: nat)
    requires 2 <= lo <= 4 && root < |mem| && Tree(mem, root, 4, 256) && v < USER_PAGES
    requires TableAt(mem, root, 4, v, lo) == Some(g) && g < |mem| && Present(Entry(mem[g], Idx(v, lo)))
    ensures TableAt(mem, root, 4, v, lo - 1) == Some(FrameOf(Entry(mem[g], Idx(v, lo))))
  {
    UserIdx(v);
    PresentChildIn(mem, root, 4, 256, v, lo, g);
    MissingFrom(mem, root, 4, v, lo);
  }

  lemma {:induction false} PresentChildIn(mem: Memory, f: nat, level: nat, n: nat, v: nat, lo: nat, g: nat)
    requires 2 <= lo <= level <= 4 && f < |mem| && n <= 512 && Tree(mem, f, level, n) && Idx(v, level) < n
    requires TableAt(mem, f, level, v, lo) == Some(g) && g < |mem| && Present(Entry(mem[g], Idx(v, lo)))
    ensures FrameOf(Entry(mem[g], Idx(v, lo))) < |mem|
    decreases level
  {
    BelowEntry(mem, f, level, n, Idx(v, level));
    if lo < level {
      PresentChildIn(mem, FrameOf(Entry(mem[f], Idx(v, level))), level - 1, 512, v, lo, g);
    }
  }

  // ----- the tables as the processor reads them

  /** The bits of an entry: present is bit 0, writable bit 1, user bit 2, and the frame is what is left
      when the low twelve bits are cut off. */
  lemma EntryBits(e: nat)
    ensures e % 8 == (if Present(e) then 1 else 0) + (if Writable(e) then 2 else 0) + (if UserBit(e) then 4 else 0)
    ensures FrameOf(e) * 4096 <= e < FrameOf(e) * 4096 + 4096
  {
    var q, r := e / 8, e % 8;
    assert e == 8 * q + r;
    Halved(4 * q, r);
    Halved(2 * q, r / 2);
    Halved(q, r / 2 / 2);
    assert e / 4 == e / 2 / 2;
    ThreeBits(r);
  }

  lemma ThreeBits(r: nat)
    requires r < 8
    ensures r == r % 2 + 2 * (r / 2 % 2) + 4 * (r / 2 / 2 % 2)
  {
  }

  lemma Halved(q: nat, r: nat)
    ensures (2 * q + r) / 2 == q + r / 2 && (2 * q + r) % 2 == r % 2
  {
  }

  lemma BitTests(e: nat)
    ensures Present(e) <==> e % 2 == 1
    ensures UserBit(e) <==> e % 8 >= 4
    ensures Present(e) ==> (Writable(e) <==> e % 4 == 3)
  {
    EntryBits(e);
    hide Writable, UserBit;
    assert e % 8 % 2 == e % 2 && e % 8 % 4 == e % 4;
  }

  /** The size of what one entry of a table at this level stands for: 4 KB, 2 MB, 1 GB, 512 GB. */
  function Extent(level: nat): nat
    requires 1 <= level <= 4
  {
    if level == 1 then 0x1000 else if level == 2 then 0x20_0000 else if level == 3 then 0x4000_0000 else 0x80_0000_0000
  }

  lemma IndexBits(a: nat, level: nat)
    requires 1 <= level <= 4
    ensures Idx(a / 4096, level) == a / Extent(level) % 512
  {
    assert a / 0x20_0000 == a / 4096 / 512;
    assert a / 0x4000_0000 == a / 4096 / 0x4_0000;
    assert a / 0x80_0000_0000 == a / 4096 / 0x800_0000;
  }

  /** The eight bytes that translating address a loads from table f. */
  function LoadedEntry(mem: Memory, f: nat, level: nat, a: nat): nat
    requires 1 <= level <= 4 && f < |mem|
  {
    LittleEndian(mem[f], 8 * (a / Extent(level) % 512), 8)
  }

  lemma EntryLoaded(mem: Memory, f: nat, level: nat, a: nat)
    requires 1 <= level <= 4 && f < |mem|
    ensures Entry(mem[f], Idx(a / 4096, level)) == LoadedEntry(mem, f, level, a)
  {
    IndexBits(a, level);
    hide Idx, LittleEndian, Extent;
    LoadsLittleEndian(mem[f], 8 * (a / Extent(level) % 512));
  }

  /** One step of the translation of an address: an even entry ends it, an odd one leads to the frame in
      its upper bits, and at the last level that is the page. */
  lemma WalkLoads(mem: Memory, f: nat, level: nat, a: nat)
    requires 1 <= level <= 4
    ensures Walk(mem, f, level, a / 4096) ==
      if f >= |mem| || LoadedEntry(mem, f, level, a) % 2 == 0 then None
      else if level == 1 then Some(LoadedEntry(mem, f, 1, a))
      else Walk(mem, LoadedEntry(mem, f, level, a) / 4096, level - 1, a / 4096)
  {
    if f < |mem| {
      EntryLoaded(mem, f, level, a);
      hide LoadedEntry, Idx, Entry;
    }
  }

  /** One step of a user's access to an address: the present and user bits at every level, and the
      writable bit at the last if it is a write. */
  lemma UserLoads(mem: Memory, f: nat, level: nat, a: nat, write: bool)
    requires 1 <= level <= 4
    ensures UserPage(mem, f, level, a / 4096, write) <==>
      f < |mem| && var e := LoadedEntry(mem, f, level, a);
        && e % 2 == 1 && e % 8 >= 4
        && if level == 1 then write ==> e % 4 == 3 else UserPage(mem, e / 4096, level - 1, a / 4096, write)
  {
    if f < |mem| {
      EntryLoaded(mem, f, level, a);
      BitTests(LoadedEntry(mem, f, level, a));
      hide LoadedEntry, Idx, Entry, Present, Writable, UserBit;
    }
  }

  /** An access is to the page of the address, and reads the byte that the low twelve bits number. */
  lemma AccessMeans(mem: Memory, root: nat, a: nat, write: bool)
    ensures UserByte(mem, root, a, write) <==> UserPage(mem, root, 4, a / 4096, write)
    ensures var e := Walk(mem, root, 4, a / 4096);
      e.Some? && e.value / 4096 < |mem| ==> ByteAt(mem, root, a) == mem[e.value / 4096][a % 4096]
  {
    hide Walk, UserPage;
  }

  /** What is written into tables: for a table its frame with the bits present, writable and user; for a
      page its frame with the flags asked for and the bit present. */
  lemma EntriesWritten(p: nat, flags: nat)
    requires flags < 4096
    ensures TableEntry(p) == 4096 * p + 7
    ensures LeafEntry(p, flags) == 4096 * p + flags + if flags % 2 == 0 then 1 else 0
  {
  }
}
