/** The memory image that the program headers of an ELF file specify, page by page. */
module ElfImage {
  import opened Bytes
  import opened PageTables

  const PT_LOAD: nat := 1
  const PHDR_SIZE: nat := 56
  const USER_END: nat := 0x8000_0000_0000

  datatype Segment = Segment(kind: nat, offset: nat, vaddr: nat, filesz: nat, memsz: nat)
  {
    predicate Loads() { kind == PT_LOAD && vaddr < USER_END }

    function FirstPage(): nat { vaddr / 4096 }

    /** page_count: the pages from that of vaddr to that of the last byte in memory. */
    function PageCount(): nat { (memsz + vaddr % 4096 + 4095) / 4096 }

    /** What it has in the file lies within the first `size` bytes. */
    predicate Within(size: nat) { filesz == 0 || offset + filesz <= size }
  }

  function ParseSegment(h: seq<Byte>): Segment
    requires |h| == PHDR_SIZE
  {
    Segment(Le32(h, 0), Le64(h, 8), Le64(h, 16), Le64(h, 32), Le64(h, 40))
  }

  function Entry64(img: seq<Byte>): nat requires |img| >= 64 { Le64(img, 24) }
  function PhOff(img: seq<Byte>): nat requires |img| >= 64 { Le64(img, 32) }
  function PhNum(img: seq<Byte>): nat requires |img| >= 64 { Le16(img, 56) }

  predicate HasMagic(img: seq<Byte>)
    requires |img| >= 64
  {
    img[0] == 0x7F && img[1] == 0x45 && img[2] == 0x4C && img[3] == 0x46
  }

  /** The program-header table lies within the file. */
  predicate HeadersFit(img: seq<Byte>, size: nat)
    requires |img| >= 64
  {
    PhOff(img) < size && PhOff(img) + PhNum(img) * PHDR_SIZE <= size
  }

  lemma HeaderWithin(img: seq<Byte>, size: nat, i: nat)
    requires 64 <= |img| && size <= |img| && HeadersFit(img, size) && i < PhNum(img)
    ensures PhOff(img) + i * PHDR_SIZE + PHDR_SIZE <= size
  {
  }

  function SegmentAt(img: seq<Byte>, size: nat, i: nat): Segment
    requires 64 <= |img| && size <= |img| && HeadersFit(img, size) && i < PhNum(img)
  {
    HeaderWithin(img, size, i);
    ParseSegment(img[PhOff(img) + i * PHDR_SIZE..PhOff(img) + i * PHDR_SIZE + PHDR_SIZE])
  }

  /** A loadable segment that starts outside the user half. */
  predicate Refused(s: Segment) { s.kind == PT_LOAD && s.vaddr >= USER_END }

  /** The first header from i on that is refused, or the number of headers. */
  ghost function FirstRefused(img: seq<Byte>, size: nat, i: nat): (j: nat)
    requires 64 <= |img| && size <= |img| && HeadersFit(img, size) && i <= PhNum(img)
    ensures i <= j <= PhNum(img)
    ensures forall k :: i <= k < j ==> !Refused(SegmentAt(img, size, k))
    ensures j < PhNum(img) ==> Refused(SegmentAt(img, size, j))
    decreases PhNum(img) - i
  {
    if i == PhNum(img) || Refused(SegmentAt(img, size, i)) then i else FirstRefused(img, size, i + 1)
  }

  /** The program headers the loader gets to: those before the first that it refuses. */
  ghost function Reach(img: seq<Byte>, size: nat): (n: nat)
    requires 64 <= |img| && size <= |img| && HeadersFit(img, size)
    ensures n <= PhNum(img) && (n < PhNum(img) ==> Refused(SegmentAt(img, size, n)))
    ensures forall k :: 0 <= k < n ==> !Refused(SegmentAt(img, size, k))
  {
    FirstRefused(img, size, 0)
  }

  /** What the loader takes for granted of a loadable segment. */
  predicate SegmentSound(s: Segment, size: nat) {
    s.Loads() ==> s.Within(size) && s.vaddr + s.memsz <= USER_END
  }

  ghost predicate FileSound(img: seq<Byte>, size: nat)
    requires 64 <= |img| && size <= |img|
  {
    HeadersFit(img, size) ==> forall i :: 0 <= i < Reach(img, size) ==> SegmentSound(SegmentAt(img, size, i), size)
  }

  lemma SoundAt(img: seq<Byte>, size: nat, i: nat)
    requires 64 <= |img| && size <= |img| && HeadersFit(img, size) && FileSound(img, size) && i < Reach(img, size)
    ensures SegmentSound(SegmentAt(img, size, i), size)
  {
    hide Reach;
  }

  /** Page v of a segment: file bytes where the segment has them, zeros before and after. */
  ghost function PageImage(img: seq<Byte>, s: Segment, v: nat): Page
    requires s.Within(|img|)
  {
    seq(4096, k requires 0 <= k < 4096 =>
      if s.vaddr <= 4096 * v + k < s.vaddr + s.filesz then img[s.offset + (4096 * v + k - s.vaddr)] else 0)
  }

  /** The first j pages of a segment. */
  ghost function SegmentPages(img: seq<Byte>, s: Segment, j: nat): map<nat, Page>
    requires s.Within(|img|)
    decreases j
  {
    if j == 0 then map[]
    else SegmentPages(img, s, j - 1)[s.FirstPage() + j - 1 := PageImage(img, s, s.FirstPage() + j - 1)]
  }

  /** Pages with later ones laid over them. */
  ghost function Over(pages: map<nat, Page>, later: map<nat, Page>): map<nat, Page> {
    pages + later
  }

  /** Consecutive pages, in order. */
  function PageList(first: nat, count: nat): (vs: seq<nat>)
    ensures |vs| == count && forall j :: 0 <= j < count ==> vs[j] == first + j
  {
    seq(count, j requires 0 <= j < count => first + j)
  }

  /** The pages that the first n program headers map, in the order of the mappings. */
  ghost function Visits(img: seq<Byte>, size: nat, n: nat): seq<nat>
    requires 64 <= |img| && size <= |img| && HeadersFit(img, size) && n <= PhNum(img)
    decreases n
  {
    if n == 0 then []
    else
      var s := SegmentAt(img, size, n - 1);
      Visits(img, size, n - 1) + if s.Loads() then PageList(s.FirstPage(), s.PageCount()) else []
  }

  /** The pages of the first n program headers; a page loaded twice shows what was loaded last. */
  ghost function Image(img: seq<Byte>, size: nat, n: nat): map<nat, Page>
    requires 64 <= |img| && size <= |img| && HeadersFit(img, size) && FileSound(img, size) && n <= Reach(img, size)
    decreases n
  {
    if n == 0 then map[]
    else
      var s := SegmentAt(img, size, n - 1);
      if s.Loads() then Over(Image(img, size, n - 1), SegmentPages(img, s, s.PageCount())) else Image(img, size, n - 1)
  }

  lemma {:induction false} SegmentPagesAt(img: seq<Byte>, s: Segment, j: nat, v: nat)
    requires s.Within(|img|)
    ensures v in SegmentPages(img, s, j) <==> s.FirstPage() <= v < s.FirstPage() + j
    ensures v in SegmentPages(img, s, j) ==> SegmentPages(img, s, j)[v] == PageImage(img, s, v)
  {
    if j > 0 { SegmentPagesAt(img, s, j - 1, v); }
  }

  /** Page v is one of the pages a segment is loaded to. */
  predicate Covers(s: Segment, v: nat) {
    s.Loads() && s.FirstPage() <= v < s.FirstPage() + s.PageCount()
  }

  /** No page belongs to both segments. */
  ghost predicate Apart(s: Segment, t: Segment) {
    forall v :: !(Covers(s, v) && Covers(t, v))
  }

  /** No page belongs to two loadable segments. */
  ghost predicate SegmentsApart(img: seq<Byte>, size: nat, n: nat)
    requires 64 <= |img| && size <= |img| && HeadersFit(img, size) && n <= PhNum(img)
  {
    forall i, j :: 0 <= i < j < n ==> Apart(SegmentAt(img, size, i), SegmentAt(img, size, j))
  }

  /** Where segments are apart, every page of the image shows its own segment. */
  lemma {:induction false} ImageShows(img: seq<Byte>, size: nat, n: nat, i: nat, v: nat)
    requires 64 <= |img| && size <= |img| && HeadersFit(img, size) && FileSound(img, size) && i < n <= Reach(img, size)
    requires SegmentsApart(img, size, n) && Covers(SegmentAt(img, size, i), v)
    ensures v in Image(img, size, n) && Image(img, size, n)[v] == PageImage(img, SegmentAt(img, size, i), v)
    decreases n
  {
    hide SegmentAt, PageImage, SegmentPages, HeadersFit, FileSound, PhNum, Reach, Segment.PageCount, Segment.FirstPage;
    var t := SegmentAt(img, size, n - 1);
    SoundAt(img, size, n - 1);
    if t.Loads() {
      SegmentPagesAt(img, t, t.PageCount(), v);
    }
    if i < n - 1 {
      assert Apart(SegmentAt(img, size, i), t);
      ImageShows(img, size, n - 1, i, v);
    }
  }

  /** The byte at address vaddr + k: from the file for k < filesz, zero from there to memsz. */
  lemma SegmentByte(img: seq<Byte>, s: Segment, k: nat)
    requires s.Within(|img|) && k < s.memsz
    ensures var a := s.vaddr + k;
      && s.FirstPage() <= a / 4096 < s.FirstPage() + s.PageCount()
      && PageImage(img, s, a / 4096)[a % 4096] == if k < s.filesz then img[s.offset + k] else 0
  {
    var a := s.vaddr + k;
    assert a == 4096 * (a / 4096) + a % 4096;
    assert s.vaddr == 4096 * (s.vaddr / 4096) + s.vaddr % 4096;
  }

  /** Bytes of a segment's pages outside [vaddr, vaddr + filesz) are zero. */
  lemma PaddingByte(img: seq<Byte>, s: Segment, v: nat, k: nat)
    requires s.Within(|img|) && k < 4096
    requires !(s.vaddr <= 4096 * v + k < s.vaddr + s.filesz)
    ensures PageImage(img, s, v)[k] == 0
  {
  }

  lemma ImageNext(img: seq<Byte>, size: nat, n: nat)
    requires 64 <= |img| && size <= |img| && HeadersFit(img, size) && FileSound(img, size) && n < Reach(img, size)
    ensures var s := SegmentAt(img, size, n);
      && SegmentSound(s, size)
      && (s.Loads() ==>
            && Image(img, size, n + 1) == Over(Image(img, size, n), SegmentPages(img, s, s.PageCount()))
            && Visits(img, size, n + 1) == Visits(img, size, n) + PageList(s.FirstPage(), s.PageCount()))
      && (!s.Loads() ==>
            Image(img, size, n + 1) == Image(img, size, n) && Visits(img, size, n + 1) == Visits(img, size, n))
  {
    hide SegmentAt, PageImage, HeadersFit, FileSound, PhNum, Reach, Segment.PageCount, Segment.FirstPage;
    SoundAt(img, size, n);
    var s := SegmentAt(img, size, n);
    if !s.Loads() {
      assert Visits(img, size, n) + [] == Visits(img, size, n);
    }
  }

  /** Fewer headers map a first part of the pages. */
  lemma {:induction false} VisitsPrefix(img: seq<Byte>, size: nat, n: nat, m: nat)
    requires 64 <= |img| && size <= |img| && HeadersFit(img, size) && FileSound(img, size) && n <= m <= Reach(img, size)
    ensures Visits(img, size, n) <= Visits(img, size, m)
    decreases m
  {
    hide HeadersFit, FileSound, PhNum, Reach, Visits, SegmentAt, Segment.PageCount, Segment.FirstPage;
    if n < m {
      VisitsPrefix(img, size, n, m - 1);
      ImageNext(img, size, m - 1);
    }
  }

  lemma NoHeaders(img: seq<Byte>, size: nat)
    requires 64 <= |img| && size <= |img| && HeadersFit(img, size) && FileSound(img, size)
    ensures Image(img, size, 0) == map[] && Visits(img, size, 0) == []
  {
  }

  ghost function Elems(vs: seq<nat>): set<nat> { set v | v in vs }

  ghost predicate Distinct(vs: seq<nat>) { forall i, j :: 0 <= i < j < |vs| ==> vs[i] != vs[j] }

  lemma ElemsNext(vs: seq<nat>, us: seq<nat>)
    ensures Elems(vs + us) == Elems(vs) + Elems(us)
  {
    forall v | v in vs || v in us ensures v in vs + us {
    }
  }

  /** A list has as many elements as places exactly when it repeats nothing. */
  lemma {:induction false} ElemsCount(vs: seq<nat>)
    ensures |Elems(vs)| <= |vs| && (|Elems(vs)| == |vs| <==> Distinct(vs))
    decreases |vs|
  {
    if vs != [] {
      var us, v := vs[..|vs| - 1], vs[|vs| - 1];
      ElemsCount(us);
      assert vs == us + [v];
      ElemsNext(us, [v]);
      assert Elems([v]) == {v};
      if v in us {
        assert Elems(us) + {v} == Elems(us);
        var i :| 0 <= i < |us| && us[i] == v;
        assert vs[i] == vs[|vs| - 1];
      } else {
        forall i, j | 0 <= i < j < |us| ensures us[i] != us[j] <==> vs[i] != vs[j] {
        }
      }
    }
  }

  lemma DistinctJoined(vs: seq<nat>, us: seq<nat>)
    ensures Distinct(vs + us) <==> Distinct(vs) && Distinct(us) && Elems(vs) !! Elems(us)
  {
    ElemsCount(vs);
    ElemsCount(us);
    ElemsCount(vs + us);
    ElemsNext(vs, us);
    UnionCount(Elems(vs), Elems(us));
    if Elems(vs) !! Elems(us) {
      assert Elems(vs) * Elems(us) == {};
    } else {
      var x :| x in Elems(vs) && x in Elems(us);
      assert x in Elems(vs) * Elems(us);
    }
  }

  lemma UnionCount(a: set<nat>, b: set<nat>)
    ensures |a + b| + |a * b| == |a| + |b|
  {
    assert a + b == a + (b - a) && b == (b - a) + (a * b);
    assert |a + (b - a)| == |a| + |b - a|;
    assert |(b - a) + (a * b)| == |b - a| + |a * b|;
  }

  lemma PageListElems(first: nat, count: nat)
    ensures Distinct(PageList(first, count))
    ensures forall v :: v in Elems(PageList(first, count)) <==> first <= v < first + count
  {
    forall v | first <= v < first + count ensures v in PageList(first, count) {
      assert PageList(first, count)[v - first] == v;
    }
  }

  /** The pages mapped are those that some segment covers. */
  lemma {:induction false} VisitsCovered(img: seq<Byte>, size: nat, n: nat, v: nat)
    requires 64 <= |img| && size <= |img| && HeadersFit(img, size) && FileSound(img, size) && n <= Reach(img, size)
    ensures v in Elems(Visits(img, size, n)) <==> exists i :: 0 <= i < n && Covers(SegmentAt(img, size, i), v)
    decreases n
  {
    hide SegmentAt, HeadersFit, FileSound, PhNum, Reach, Segment.PageCount, Segment.FirstPage;
    if n > 0 {
      var s := SegmentAt(img, size, n - 1);
      VisitsCovered(img, size, n - 1, v);
      ImageNext(img, size, n - 1);
      hide Visits;
      if s.Loads() {
        PageListElems(s.FirstPage(), s.PageCount());
        ElemsNext(Visits(img, size, n - 1), PageList(s.FirstPage(), s.PageCount()));
      }
      if v in Elems(Visits(img, size, n)) && v !in Elems(Visits(img, size, n - 1)) {
        assert Covers(SegmentAt(img, size, n - 1), v);
      }
    }
  }

  /** No page is mapped twice exactly when no two segments share one. */
  lemma {:induction false} VisitsDistinct(img: seq<Byte>, size: nat, n: nat)
    requires 64 <= |img| && size <= |img| && HeadersFit(img, size) && FileSound(img, size) && n <= Reach(img, size)
    ensures Distinct(Visits(img, size, n)) <==> SegmentsApart(img, size, n)
    decreases n
  {
    hide SegmentAt, HeadersFit, FileSound, PhNum, Reach, Segment.PageCount, Segment.FirstPage, Distinct, Covers, Elems, Visits;
    if n == 0 {
      NoHeaders(img, size);
      NothingTwice();
    } else {
      VisitsDistinct(img, size, n - 1);
      VisitsNext(img, size, n);
    }
  }

  lemma NothingTwice()
    ensures Distinct([])
  {
  }

  lemma VisitsNext(img: seq<Byte>, size: nat, n: nat)
    requires 64 <= |img| && size <= |img| && HeadersFit(img, size) && FileSound(img, size) && 0 < n <= Reach(img, size)
    ensures Distinct(Visits(img, size, n)) <==>
      Distinct(Visits(img, size, n - 1))
      && forall i :: 0 <= i < n - 1 ==> Apart(SegmentAt(img, size, i), SegmentAt(img, size, n - 1))
  {
    hide SegmentAt, HeadersFit, FileSound, PhNum, Reach, Segment.PageCount, Segment.FirstPage, Distinct, Elems, Visits;
    var s, before := SegmentAt(img, size, n - 1), Visits(img, size, n - 1);
    ImageNext(img, size, n - 1);
    if s.Loads() {
      var more := PageList(s.FirstPage(), s.PageCount());
      DistinctJoined(before, more);
      PageListElems(s.FirstPage(), s.PageCount());
      forall v ensures v in Elems(before) <==> v >= 0 && exists i :: 0 <= i < n - 1 && Covers(SegmentAt(img, size, i), v) {
        if v >= 0 { VisitsCovered(img, size, n - 1, v); }
      }
      assert forall v :: v in Elems(more) <==> Covers(s, v);
      if i :| 0 <= i < n - 1 && !Apart(SegmentAt(img, size, i), s) {
        var v :| Covers(SegmentAt(img, size, i), v) && Covers(s, v);
        assert v in Elems(before) && v in Elems(more);
      }
    }
  }

  /** The image has the pages that are mapped. */
  lemma {:induction false} ImageKeys(img: seq<Byte>, size: nat, n: nat)
    requires 64 <= |img| && size <= |img| && HeadersFit(img, size) && FileSound(img, size) && n <= Reach(img, size)
    ensures Image(img, size, n).Keys == Elems(Visits(img, size, n))
    decreases n
  {
    hide SegmentAt, HeadersFit, FileSound, PhNum, Reach, Segment.PageCount, Segment.FirstPage, Visits, Image, PageImage, SegmentPages;
    if n == 0 {
      NoHeaders(img, size);
    } else {
      ImageKeys(img, size, n - 1);
      ImageNext(img, size, n - 1);
      var s := SegmentAt(img, size, n - 1);
      if s.Loads() {
        PageListElems(s.FirstPage(), s.PageCount());
        ElemsNext(Visits(img, size, n - 1), PageList(s.FirstPage(), s.PageCount()));
        forall v: nat ensures v in SegmentPages(img, s, s.PageCount()) <==> s.FirstPage() <= v < s.FirstPage() + s.PageCount() {
          SegmentPagesAt(img, s, s.PageCount(), v);
        }
      }
    }
  }

  // ----- headers byte by byte

  /** The fields of a program header, stored where the ELF format has them, are read from there. */
  lemma SegmentParsed(h: seq<Byte>, kind: nat, offset: nat, vaddr: nat, filesz: nat, memsz: nat)
    requires |h| == 56 && kind < 0x1_0000_0000
    requires offset < 0x1_0000_0000_0000_0000 && vaddr < 0x1_0000_0000_0000_0000
    requires filesz < 0x1_0000_0000_0000_0000 && memsz < 0x1_0000_0000_0000_0000
    ensures var s := ParseSegment(Put64(Put64(Put64(Put64(Put32(h, 0, kind), 8, offset), 16, vaddr), 32, filesz), 40, memsz));
      s.kind == kind && s.offset == offset && s.vaddr == vaddr && s.filesz == filesz && s.memsz == memsz
  {
    hide Put32, Put64;
    var a := Put64(Put32(h, 0, kind), 8, offset);
    var b := Put64(a, 16, vaddr);
    var c := Put64(b, 32, filesz);
    assert Le32(a, 0) == kind;
    hide Le32;
    Le64Kept(a, b, 8);
    Le64Kept(b, c, 8);
    Le64Kept(b, c, 16);
    Le64Kept(c, Put64(c, 40, memsz), 8);
    Le64Kept(c, Put64(c, 40, memsz), 16);
    Le64Kept(c, Put64(c, 40, memsz), 32);
    Le32Kept(a, Put64(c, 40, memsz), 0);
  }

  lemma Le32Kept(s: seq<Byte>, t: seq<Byte>, o: nat)
    requires o + 4 <= |s| == |t| && forall i :: o <= i < o + 4 ==> t[i] == s[i]
    ensures Le32(t, o) == Le32(s, o)
  {
  }

  lemma Le64Kept(s: seq<Byte>, t: seq<Byte>, o: nat)
    requires o + 8 <= |s| == |t| && forall i :: o <= i < o + 8 ==> t[i] == s[i]
    ensures Le64(t, o) == Le64(s, o)
  {
  }

  /** The file header: the magic, the entry point at 24, the program headers' place at 32 and their
      number at 56. */
  lemma HeaderParsed(img: seq<Byte>)
    requires |img| >= 64
    ensures HasMagic(img) <==> img[..4] == [0x7F, 0x45, 0x4C, 0x46]
    ensures Entry64(img) == LittleEndian(img, 24, 8) && PhOff(img) == LittleEndian(img, 32, 8)
    ensures PhNum(img) == LittleEndian(img, 56, 2)
  {
    hide LittleEndian;
    LoadsLittleEndian(img, 24);
    LoadsLittleEndian(img, 32);
    LoadsLittleEndian(img, 56);
  }

  /** The program headers fit when they start inside the file and none of them ends outside. */
  lemma HeadersFitMeans(img: seq<Byte>, size: nat)
    requires |img| >= 64
    ensures HeadersFit(img, size) <==>
      PhOff(img) < size && forall i :: 0 <= i < PhNum(img) ==> PhOff(img) + 56 * i + 56 <= size
  {
    var n := PhNum(img);
    if n > 0 && PhOff(img) < size && forall i :: 0 <= i < n ==> PhOff(img) + 56 * i + 56 <= size {
      assert PhOff(img) + 56 * (n - 1) + 56 <= size;
    }
  }

  /** Program header i in terms of the file's own bytes. */
  lemma SegmentInFile(img: seq<Byte>, size: nat, i: nat)
    requires 64 <= |img| && size <= |img| && HeadersFit(img, size) && i < PhNum(img)
    ensures LittleEndian(img, 32, 8) + 56 * i + 56 <= |img|
    ensures var s, o := SegmentAt(img, size, i), LittleEndian(img, 32, 8) + 56 * i;
      && s.kind == LittleEndian(img, o, 4) && s.offset == LittleEndian(img, o + 8, 8)
      && s.vaddr == LittleEndian(img, o + 16, 8) && s.filesz == LittleEndian(img, o + 32, 8)
      && s.memsz == LittleEndian(img, o + 40, 8)
  {
    hide LittleEndian, Le16, Le32, Le64, HasMagic;
    HeaderParsed(img);
    HeaderWithin(img, size, i);
    var o := PhOff(img) + i * PHDR_SIZE;
    var h := img[o..o + PHDR_SIZE];
    HeaderLoads(img, h, o);
  }

  lemma HeaderLoads(img: seq<Byte>, h: seq<Byte>, o: nat)
    requires o + 56 <= |img| && h == img[o..o + 56]
    ensures Le32(h, 0) == LittleEndian(img, o, 4) && Le64(h, 8) == LittleEndian(img, o + 8, 8)
    ensures Le64(h, 16) == LittleEndian(img, o + 16, 8) && Le64(h, 32) == LittleEndian(img, o + 32, 8)
    ensures Le64(h, 40) == LittleEndian(img, o + 40, 8)
  {
    hide LittleEndian, Le32, Le64;
    PartLoads(img, h, o, 0);
    PartLoads(img, h, o, 8);
    PartLoads(img, h, o, 16);
    PartLoads(img, h, o, 32);
    PartLoads(img, h, o, 40);
  }

  lemma PartLoads(img: seq<Byte>, h: seq<Byte>, o: nat, k: nat)
    requires o + 56 <= |img| && h == img[o..o + 56] && k + 8 <= 56
    ensures Le32(h, k) == LittleEndian(img, o + k, 4) && Le64(h, k) == LittleEndian(img, o + k, 8)
  {
    hide LittleEndian;
    LoadsLittleEndian(img, o + k);
  }

  /** A segment with something in memory covers exactly the pages that hold a byte of it. */
  lemma CoversBytes(s: Segment, v: nat)
    requires s.kind == 1 && s.vaddr < 0x8000_0000_0000 && s.memsz > 0
    ensures Covers(s, v) <==> s.vaddr < 4096 * v + 4096 && 4096 * v < s.vaddr + s.memsz
  {
    assert s.vaddr == 4096 * (s.vaddr / 4096) + s.vaddr % 4096;
  }

  /** One with nothing in memory covers a page only if it does not start with one. */
  lemma CoversEmpty(s: Segment, v: nat)
    requires s.kind == 1 && s.vaddr < 0x8000_0000_0000 && s.memsz == 0
    ensures Covers(s, v) <==> s.vaddr % 4096 != 0 && v == s.vaddr / 4096
  {
  }

  /** The header that is refused, if one is: the first loadable one at or above 2^47. */
  lemma ReachMeans(img: seq<Byte>, size: nat)
    requires 64 <= |img| && size <= |img| && HeadersFit(img, size)
    ensures forall i :: 0 <= i < Reach(img, size) ==>
      SegmentAt(img, size, i).kind != 1 || SegmentAt(img, size, i).vaddr < 0x8000_0000_0000
    ensures var i := Reach(img, size);
      i < PhNum(img) ==> SegmentAt(img, size, i).kind == 1 && SegmentAt(img, size, i).vaddr >= 0x8000_0000_0000
  {
    hide HeadersFit, PhNum, SegmentAt, Reach;
  }
}
