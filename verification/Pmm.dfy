/** The physical page allocator: one bit per 4096-byte page, set where the page is taken. */
module Pmm {

  const PAGE: nat := 4096

  /** 1 << k, for a bit number within a byte. */
  function Mask(k: nat): bv8
    requires k < 8
  {
    if k == 0 then 1 else if k == 1 then 2 else if k == 2 then 4 else if k == 3 then 8
    else if k == 4 then 16 else if k == 5 then 32 else if k == 6 then 64 else 128
  }

  predicate Bit(bits: seq<bv8>, i: nat)
    requires i < 8 * |bits|
  {
    bits[i / 8] & Mask(i % 8) != 0
  }

  lemma MaskedApart(b: bv8, k: nat, j: nat)
    requires k < 8 && j < 8
    ensures (b | Mask(k)) & Mask(j) != 0 <==> j == k || b & Mask(j) != 0
    ensures (b & !Mask(k)) & Mask(j) != 0 <==> j != k && b & Mask(j) != 0
  {
    var m, n := Mask(k), Mask(j);
    assert j == k ==> (b | m) & n != 0 && (b & !m) & n == 0;
    assert j != k ==> m & n == 0;
    assert m & n == 0 ==> (b | m) & n == b & n && (b & !m) & n == b & n;
  }

  /** Setting or clearing one bit of the map changes that bit alone. */
  lemma BitSet(bits: seq<bv8>, bit: nat, i: nat)
    requires bit < 8 * |bits| && i < 8 * |bits|
    ensures Bit(bits[bit / 8 := bits[bit / 8] | Mask(bit % 8)], i) <==> i == bit || Bit(bits, i)
  {
    hide Mask;
    if i / 8 == bit / 8 {
      assert i % 8 == bit % 8 <==> i == bit;
      MaskedApart(bits[bit / 8], bit % 8, i % 8);
    }
  }

  lemma BitCleared(bits: seq<bv8>, bit: nat, i: nat)
    requires bit < 8 * |bits| && i < 8 * |bits|
    ensures Bit(bits[bit / 8 := bits[bit / 8] & !Mask(bit % 8)], i) <==> i != bit && Bit(bits, i)
  {
    hide Mask;
    if i / 8 == bit / 8 {
      assert i % 8 == bit % 8 <==> i == bit;
      MaskedApart(bits[bit / 8], bit % 8, i % 8);
    }
  }

  /** Pages [s, s + count) are all free. */
  ghost predicate RunAt(free: set<nat>, s: nat, count: nat) {
    forall j :: s <= j < s + count ==> j in free
  }

  /** s starts the lowest run of free pages that lies within [lo, hi). */
  ghost predicate FirstRun(free: set<nat>, lo: nat, hi: nat, count: nat, s: nat) {
    && lo <= s && s + count <= hi && RunAt(free, s, count)
    && forall t :: lo <= t < s ==> !RunAt(free, t, count)
  }

  ghost predicate NoRun(free: set<nat>, lo: nat, hi: nat, count: nat) {
    forall t :: lo <= t && t + count <= hi ==> !RunAt(free, t, count)
  }

  predicate Within(j: nat, s: nat, count: nat) {
    s <= j < s + count
  }

  ghost function Pages(s: nat, count: nat): set<nat> {
    set j | 0 <= j < s + count && Within(j, s, count)
  }

  lemma {:induction false} PagesCount(s: nat, count: nat)
    ensures |Pages(s, count)| == count
  {
    if count > 0 {
      PagesCount(s, count - 1);
      assert Pages(s, count) == Pages(s, count - 1) + {s + count - 1};
    }
  }

  /** Where the allocator takes `count` pages from: the first run from the cursor on, or, failing
      that, the first run below the cursor. A run across the cursor is not seen. */
  ghost predicate TakenAt(free: set<nat>, last: nat, highest: nat, count: nat, s: nat) {
    FirstRun(free, last, highest, count, s)
    || (NoRun(free, last, highest, count) && FirstRun(free, 0, last, count, s))
  }

  ghost predicate NoneToTake(free: set<nat>, last: nat, highest: nat, count: nat) {
    NoRun(free, last, highest, count) && NoRun(free, 0, last, count)
  }

  lemma PagesTaken(free: set<nat>, s: nat, count: nat)
    requires RunAt(free, s, count)
    ensures |free - Pages(s, count)| == |free| - count
  {
    PagesCount(s, count);
    assert Pages(s, count) <= free;
    assert |free - Pages(s, count)| == |free| - |Pages(s, count)|;
  }

  lemma PageOne(s: nat)
    ensures Pages(s, 1) == {s}
  {
    assert Within(s, s, 1);
  }

  lemma PagesNext(s: nat, j: nat)
    ensures Pages(s, 0) == {} && Pages(s, j + 1) == Pages(s, j) + {s + j}
  {
    assert Within(s + j, s, j + 1);
  }

  lemma RunOfOne(free: set<nat>, p: nat)
    ensures RunAt(free, p, 1) <==> p in free
    ensures forall lo: nat :: p !in free && NoRun(free, lo, p, 1) ==> NoRun(free, lo, p + 1, 1)
  {
    assert p <= p < p + 1;
  }

  /** For a single page the cursor does not matter: none is found exactly when none is free. */
  lemma SinglePage(free: set<nat>, last: nat, highest: nat)
    requires last <= highest && forall p :: p in free ==> p < highest
    ensures NoneToTake(free, last, highest, 1) <==> free == {}
  {
    forall p: nat ensures RunAt(free, p, 1) <==> p in free {
      if RunAt(free, p, 1) {
        assert p <= p < p + 1;
      }
    }
    if free != {} {
      var p :| p in free;
      assert RunAt(free, p, 1);
    }
  }

  /** What is refused although there may be a run: nothing is found exactly when every free run of that
      length lies across the cursor. */
  lemma MissedExactly(free: set<nat>, last: nat, highest: nat, count: nat)
    requires last <= highest && count >= 1 && forall p :: p in free ==> p < highest
    ensures NoneToTake(free, last, highest, count) <==>
      forall s: nat :: RunAt(free, s, count) ==> s < last < s + count
  {
    forall s: nat | RunAt(free, s, count) ensures s + count <= highest {
      assert s + count - 1 in free;
    }
  }

  class Allocator {
    const bitmap: array<bv8>
    var freeMemory: nat
    var highest: nat
    var last: nat

    ghost predicate Shape()
      reads this, bitmap
    {
      highest <= 8 * bitmap.Length && last <= highest
    }

    ghost function Free(): set<nat>
      requires Shape()
      reads this, bitmap
    {
      set i | 0 <= i < highest && !Bit(bitmap[..], i)
    }

    /** The running total agrees with the bitmap. */
    ghost predicate Valid()
      reads this, bitmap
    {
      Shape() && freeMemory == PAGE * |Free()|
    }

    constructor (bitmap: array<bv8>, highest: nat, ghost free: set<nat>, freeMemory: nat)
      requires highest <= 8 * bitmap.Length && freeMemory == 4096 * |free|
      requires free == set i | 0 <= i < highest && !Bit(bitmap[..], i)
      ensures Valid() && Free() == free && this.bitmap == bitmap && this.highest == highest && last == 0
    {
      this.bitmap := bitmap;
      this.highest := highest;
      this.freeMemory := freeMemory;
      last := 0;
    }

    method Test(bit: nat) returns (taken: bool)
      requires Shape() && bit < highest
      ensures taken <==> bit !in Free()
    {
      taken := bitmap[bit / 8] & Mask(bit % 8) != 0;
      assert bitmap[..][bit / 8] == bitmap[bit / 8];
    }

    method Set(bit: nat)
      requires Shape() && bit < highest
      modifies bitmap
      ensures Shape() && Free() == old(Free()) - {bit}
    {
      hide Mask;
      ghost var was := bitmap[..];
      bitmap[bit / 8] := bitmap[bit / 8] | Mask(bit % 8);
      assert bitmap[..] == was[bit / 8 := was[bit / 8] | Mask(bit % 8)];
      forall i | 0 <= i < highest ensures Bit(bitmap[..], i) <==> i == bit || Bit(was, i) {
        BitSet(was, bit, i);
      }
    }

    method Clear(bit: nat)
      requires Shape() && bit < highest
      modifies bitmap
      ensures Shape() && Free() == old(Free()) + {bit}
    {
      hide Mask;
      ghost var was := bitmap[..];
      bitmap[bit / 8] := bitmap[bit / 8] & !Mask(bit % 8);
      assert bitmap[..] == was[bit / 8 := was[bit / 8] & !Mask(bit % 8)];
      forall i | 0 <= i < highest ensures Bit(bitmap[..], i) <==> i != bit && Bit(was, i) {
        BitCleared(was, bit, i);
      }
    }

    /** pmm_alloc_page. The address 0 means none was free; only where page 0 itself is free does it
        also name a page. */
    method AllocPage() returns (addr: nat)
      requires Valid()
      modifies this`freeMemory, this`last, bitmap
      ensures Valid()
      ensures old(Free()) == {} ==> addr == 0 && Free() == {} && last == old(last)
      ensures old(Free()) != {} ==> addr % 4096 == 0 && addr / 4096 in old(Free()) && Free() == old(Free()) - {addr / 4096}
      ensures old(Free()) != {} ==> last == addr / 4096 && TakenAt(old(Free()), old(last), highest, 1, addr / 4096)
    {
      hide Mask, Bit, Pages;
      ghost var free, l0 := Free(), last;
      SinglePage(free, l0, highest);
      var i := last;
      while i < highest
        invariant Valid() && last == l0 <= i <= highest && Free() == free && NoRun(free, l0, i, 1)
      {
        var taken := Test(i);
        RunOfOne(free, i);
        if !taken {
          PageOne(i);
          PagesTaken(free, i, 1);
          freeMemory := freeMemory - PAGE;
          Set(i);
          last := i;
          return i * PAGE;
        }
        i := i + 1;
      }
      i := 0;
      while i < last
        invariant Valid() && 0 <= i <= last == l0 && Free() == free && NoRun(free, 0, i, 1)
      {
        var taken := Test(i);
        RunOfOne(free, i);
        if !taken {
          PageOne(i);
          PagesTaken(free, i, 1);
          freeMemory := freeMemory - PAGE;
          Set(i);
          last := i;
          return i * PAGE;
        }
        i := i + 1;
      }
      return 0;
    }

    /** One scan for `count` consecutive free pages in [lo, hi); -1 if there are none. */
    method FindRun(lo: nat, hi: nat, count: nat) returns (s: int)
      requires Shape() && hi <= highest && count >= 1 && lo <= hi
      ensures s == -1 ==> NoRun(Free(), lo, hi, count)
      ensures s != -1 ==> s >= 0 && FirstRun(Free(), lo, hi, count, s)
    {
      var contiguous, start := 0, lo;
      var i := lo;
      while i < hi
        invariant lo <= i <= hi && 0 <= contiguous < count && lo <= i - contiguous
        invariant contiguous > 0 ==> start == i - contiguous
        invariant RunAt(Free(), i - contiguous, contiguous)
        invariant i - contiguous == lo || i - contiguous - 1 !in Free()
        invariant NoRun(Free(), lo, i, count)
      {
        var taken := Test(i);
        if !taken {
          if contiguous == 0 { start := i; }
          contiguous := contiguous + 1;
          if contiguous == count {
            return start;
          }
          forall t | lo <= t && t + count == i + 1 ensures !RunAt(Free(), t, count) {
            assert t <= i - contiguous < t + count;
          }
        } else {
          contiguous := 0;
          forall t | lo <= t && t + count == i + 1 ensures !RunAt(Free(), t, count) {
            assert t <= i < t + count;
          }
        }
        i := i + 1;
      }
      return -1;
    }

    method SetRun(s: nat, count: nat)
      requires Shape() && s + count <= highest
      modifies bitmap
      ensures Shape() && Free() == old(Free()) - Pages(s, count)
    {
      hide Pages, Mask, Bit;
      ghost var free := Free();
      PagesNext(s, 0);
      var j := 0;
      while j < count
        invariant 0 <= j <= count && Shape() && Free() == free - Pages(s, j)
      {
        PagesNext(s, j);
        Set(s + j);
        j := j + 1;
      }
    }

    /** Marks a run that a scan has found. */
    method Take(s: nat, count: nat)
      requires Valid() && RunAt(Free(), s, count) && count >= 1
      modifies this`freeMemory, this`last, bitmap
      ensures Valid() && Free() == old(Free()) - Pages(s, count) && last == s + count
    {
      hide Pages, Mask, Bit;
      ghost var free := Free();
      assert s + count - 1 in free;
      PagesTaken(free, s, count);
      SetRun(s, count);
      last := s + count;
      assert |Free()| == |free| - count;
      freeMemory := freeMemory - PAGE * count;
    }

    /** pmm_alloc_pages. s is the first page taken, or -1. */
    method AllocPages(count: nat) returns (addr: nat, ghost s: int)
      requires Valid()
      modifies this`freeMemory, this`last, bitmap
      ensures Valid()
      ensures s == -1 ==> addr == 0 && Free() == old(Free()) && last == old(last)
      ensures s == -1 <==> count == 0 || NoneToTake(old(Free()), old(last), highest, count)
      ensures s != -1 ==> s >= 0 && addr == s * 4096 && TakenAt(old(Free()), old(last), highest, count, s)
      ensures s != -1 ==> Free() == old(Free()) - Pages(s, count)
    {
      if count == 0 { return 0, -1; }
      if count == 1 {
        SinglePage(Free(), last, highest);
        addr := AllocPage();
        s := if old(Free()) == {} then -1 else addr / PAGE;
        PageOne(addr / PAGE);
        return;
      }
      var t := FindRun(last, highest, count);
      if t == -1 {
        t := FindRun(0, last, count);
      }
      if t == -1 { return 0, -1; }
      Take(t, count);
      return t * PAGE, t;
    }

    /** pmm_free_page: freeing a page twice is harmless. */
    method FreePage(addr: nat)
      requires Valid() && addr / 4096 < highest
      modifies this`freeMemory, bitmap
      ensures Valid() && Free() == old(Free()) + {addr / 4096}
    {
      var bit := addr / PAGE;
      var taken := Test(bit);
      if taken {
        Clear(bit);
        freeMemory := freeMemory + PAGE;
      } else {
        assert Free() == old(Free()) + {bit};
      }
    }
  }

  /** Two free pages side by side, and an allocator brought there by its own operations, which finds no
      room for two: the cursor stands between them. */
  method StraddlingRun() returns (a: Allocator, addr: nat)
    ensures a.Valid() && a.last == 5 && RunAt(a.Free(), 4, 2) && addr == 0
  {
    var bits := new bv8[1](_ => 0xCF);
    FourAndFive(bits[..]);
    a := new Allocator(bits, 8, {4, 5}, 2 * PAGE);
    var p := a.AllocPage();
    assert RunAt({4, 5}, 4, 1);
    OnlyFrom({4, 5}, 0, 8, p / PAGE, 4);
    var q := a.AllocPage();
    assert {4, 5} - {4} == {5};
    assert RunAt({5}, 5, 1);
    OnlyFrom({5}, 4, 8, q / PAGE, 5);
    a.FreePage(p);
    a.FreePage(q);
    ghost var free: set<nat> := {4, 5};
    assert a.Free() == free;
    forall s: nat | RunAt(free, s, 2) ensures s == 4 {
      assert s in free && s + 1 in free;
    }
    MissedExactly(free, 5, 8, 2);
    ghost var start;
    addr, start := a.AllocPages(2);
    assert RunAt(free, 4, 2);
  }

  lemma FourAndFive(bits: seq<bv8>)
    requires bits == [0xCF]
    ensures (set i | 0 <= i < 8 && !Bit(bits, i)) == {4, 5}
  {
    assert forall i :: 0 <= i < 8 ==> (Bit(bits, i) <==> i != 4 && i != 5) by {
      assert Bit(bits, 0) && Bit(bits, 1) && Bit(bits, 2) && Bit(bits, 3);
      assert !Bit(bits, 4) && !Bit(bits, 5) && Bit(bits, 6) && Bit(bits, 7);
    }
  }

  /** A single page taken from at or after the cursor is the lowest free one there. */
  lemma OnlyFrom(free: set<nat>, last: nat, highest: nat, s: nat, first: nat)
    requires TakenAt(free, last, highest, 1, s) && last <= first < highest && first in free
    requires forall p :: p in free ==> p >= first
    ensures s == first
  {
    assert RunAt(free, first, 1);
    assert RunAt(free, s, 1);
    assert s in free;
  }

  /** The mask of bit k is one, shifted left k times. */
  lemma MaskMeans(k: nat)
    requires k < 8
    ensures Mask(k) == (1 as bv8) << k
  {
  }

  /** Where a run is taken: all its pages were free, and it is the lowest one from the cursor on, or else,
      where there is none up to the end, the lowest one before the cursor. */
  lemma TakenMeans(free: set<nat>, last: nat, highest: nat, count: nat, s: nat)
    requires count >= 1 && TakenAt(free, last, highest, count, s)
    ensures forall j :: s <= j < s + count ==> j in free
    ensures s >= last ==> s + count <= highest && forall t :: last <= t < s ==> !(Pages(t, count) <= free)
    ensures s < last ==> s + count <= last && forall t :: 0 <= t && t + count <= highest && (t < s || t >= last) ==>
      !(Pages(t, count) <= free)
  {
    forall t: nat ensures RunAt(free, t, count) <==> Pages(t, count) <= free {
      if Pages(t, count) <= free {
        forall j | t <= j < t + count ensures j in free {
          assert Within(j, t, count) && j in Pages(t, count);
        }
      }
    }
  }
}
