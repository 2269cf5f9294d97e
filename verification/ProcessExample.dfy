/** A program whose two segments share a page: loading it costs a frame for good. */
module ProcessExample {
  import opened Bytes
  import opened Pmm
  import opened PageTables
  import opened TableNeeds
  import opened Vmm
  import opened ElfImage
  import opened Process

  function Zeros(n: nat): (s: seq<Byte>)
    ensures |s| == n
  {
    seq(n, _ => 0)
  }

  /** The magic, no entry point to speak of, two program headers right behind. */
  function FileHeader(): (h: seq<Byte>)
    ensures |h| == 64
  {
    Zeros(64)[0 := 0x7F][1 := 0x45][2 := 0x4C][3 := 0x46][32 := 64][56 := 2]
  }

  /** Three bytes of memory at 0x400000 plus 256 times x, the first of them byte 2 of the file. */
  function ProgramHeader(x: Byte): (h: seq<Byte>)
    ensures |h| == 56
  {
    Zeros(56)[0 := 1][8 := 2][17 := x][18 := 0x40][32 := 1][40 := 3]
  }

  function TwoSegments(): (file: seq<Byte>)
    ensures |file| == 176
  {
    FileHeader() + (ProgramHeader(0) + ProgramHeader(8))
  }

  lemma HeaderParsed(h: seq<Byte>, x: Byte)
    requires h == ProgramHeader(x)
    ensures ParseSegment(h) == Segment(1, 2, 0x40_0000 + 256 * x, 1, 3)
  {
    assert h[0] == 1 && h[8] == 2 && h[17] == x && h[18] == 0x40 && h[32] == 1 && h[40] == 3;
    assert forall i :: 0 <= i < 56 && i !in {0, 8, 17, 18, 32, 40} ==> h[i] == 0;
    hide ProgramHeader;
    assert Le32(h, 0) == 1;
    assert Le64(h, 8) == 2 && Le64(h, 32) == 1;
    assert Le64(h, 40) == 3;
    assert Le64(h, 16) == 0x40_0000 + 256 * x;
  }

  /** The fields of the header, whatever follows the file in its buffer. */
  lemma HeaderFields(img: seq<Byte>)
    requires 176 <= |img| && img[..176] == TwoSegments()
    ensures HasMagic(img) && HeadersFit(img, 176) && PhNum(img) == 2 && PhOff(img) == 64 && Entry64(img) == 0
  {
    hide ProgramHeader;
    var h := FileHeader();
    assert forall i :: 0 <= i < 64 ==> img[i] == img[..176][i] == h[i];
  }

  lemma SegmentFields(img: seq<Byte>)
    requires 176 <= |img| && img[..176] == TwoSegments()
    ensures HeadersFit(img, 176) && PhNum(img) == 2
    ensures SegmentAt(img, 176, 0) == Segment(1, 2, 0x40_0000, 1, 3)
    ensures SegmentAt(img, 176, 1) == Segment(1, 2, 0x40_0800, 1, 3)
  {
    HeaderFields(img);
    hide HeadersFit, PhNum, PhOff, ProgramHeader, FileHeader, ParseSegment, SegmentAt;
    HeaderIs(img, 176, 0);
    HeaderIs(img, 176, 1);
    HeaderBytes(img);
    hide TwoSegments;
    HeaderParsed(img[64..120], 0);
    HeaderParsed(img[120..176], 8);
  }

  lemma HeaderBytes(img: seq<Byte>)
    requires 176 <= |img| && img[..176] == TwoSegments()
    ensures img[64..120] == ProgramHeader(0) && img[120..176] == ProgramHeader(8)
  {
    hide ProgramHeader, FileHeader;
    assert img[64..120] == img[..176][64..120];
    assert img[120..176] == img[..176][120..176];
  }

  /** The file is in order, and maps page 1024 twice. */
  lemma SharesAPage(img: seq<Byte>)
    requires 176 <= |img| && img[..176] == TwoSegments()
    ensures MapsTwice(img, 176) && Entry64(img) == 0
    ensures Reach(img, 176) == 2 == PhNum(img) && Visits(img, 176, 2) == [1024, 1024]
  {
    hide HeadersFit, HasMagic, TwoSegments, PhNum, SegmentAt, Entry64, Visits, FileSound, Reach, NoPageTwice;
    HeaderFields(img);
    SegmentFields(img);
    BothSound(img);
    OnePageBoth(img);
    NoneRefused(img);
    VisitedTwice(img);
  }

  lemma VisitedTwice(img: seq<Byte>)
    requires 176 <= |img| && HeadersFit(img, 176) && PhNum(img) == 2 && FileSound(img, 176)
    requires SegmentAt(img, 176, 0) == Segment(1, 2, 0x40_0000, 1, 3)
    requires SegmentAt(img, 176, 1) == Segment(1, 2, 0x40_0800, 1, 3)
    ensures Visits(img, 176, 2) == [1024, 1024]
  {
    hide HeadersFit, PhNum, SegmentAt, Visits, FileSound, Image, SegmentPages, PageList;
    NoHeaders(img, 176);
    ImageNext(img, 176, 0);
    ImageNext(img, 176, 1);
    assert PageList(1024, 1) == [1024];
  }

  lemma OnePageBoth(img: seq<Byte>)
    requires 176 <= |img| && HeadersFit(img, 176) && PhNum(img) == 2
    requires SegmentAt(img, 176, 0) == Segment(1, 2, 0x40_0000, 1, 3)
    requires SegmentAt(img, 176, 1) == Segment(1, 2, 0x40_0800, 1, 3)
    ensures !NoPageTwice(img, 176)
  {
    hide HeadersFit, PhNum, SegmentAt;
    assert Covers(SegmentAt(img, 176, 0), 1024) && Covers(SegmentAt(img, 176, 1), 1024);
    assert !Apart(SegmentAt(img, 176, 0), SegmentAt(img, 176, 1));
  }

  lemma NoneRefused(img: seq<Byte>)
    requires 176 <= |img| && HeadersFit(img, 176) && PhNum(img) == 2
    requires SegmentAt(img, 176, 0) == Segment(1, 2, 0x40_0000, 1, 3)
    requires SegmentAt(img, 176, 1) == Segment(1, 2, 0x40_0800, 1, 3)
    ensures Reach(img, 176) == 2
  {
    hide HeadersFit, PhNum, SegmentAt;
    assert FirstRefused(img, 176, 1) == 2;
  }

  lemma BothSound(img: seq<Byte>)
    requires 176 <= |img| && HeadersFit(img, 176) && PhNum(img) == 2
    requires SegmentAt(img, 176, 0) == Segment(1, 2, 0x40_0000, 1, 3)
    requires SegmentAt(img, 176, 1) == Segment(1, 2, 0x40_0800, 1, 3)
    ensures FileSound(img, 176)
  {
    hide HeadersFit, PhNum, SegmentAt;
  }

  lemma SoundFile()
    ensures ElfSound(TwoSegments())
  {
    hide HeadersFit, HasMagic, TwoSegments, FileSound, NoPageTwice;
    forall rest: seq<Byte> | 64 <= |TwoSegments() + rest| ensures FileSound(TwoSegments() + rest, 176) {
      SharesAPage(TwoSegments() + rest);
    }
  }

  /** Two pages that are one, and the stack: three mappings, three tables for each of the two places. */
  lemma FramesNeeded()
    ensures Need([1024, 1024] + [STACK_PAGE]) == 9
  {
    NeedNext([], 1024);
    NeedNext([1024], 1024);
    NeedNext([1024, 1024], STACK_PAGE);
    assert [] + [1024] == [1024] && [1024] + [1024] == [1024, 1024];
  }

  /** With eleven free frames the program runs, and a frame is lost that no exit gives back. */
  method LoseAFrame(m: Machine) returns (out: Outcome, ghost lost: set<nat>)
    requires m.Valid() && |m.Free()| >= 11
    modifies m`mem, m.pmm`freeMemory, m.pmm`last, m.pmm.bitmap
    ensures m.Valid() && out.Running? && lost != {} && m.Free() == old(m.Free()) - lost && lost <= old(m.Free())
  {
    hide Allocator.Free, TwoSegments, ElfSound, MapsTwice, HasMagic, HeadersFit, FileSound, PhNum, Entry64, Visits, Need,
      NoneToTake, Loaded, Ends, NoPageTwice, ExecEnds, Reach, SegmentAt, Tree, Below, Frames;
    SoundFile();
    FreeBelow(m);
    SinglePage(m.Free(), m.pmm.last, m.pmm.highest);
    ghost var free0 := m.Free();
    ghost var img, stack;
    out, img, lost, stack := Exec(m, TwoSegments(), 176, None);
    InBuffer(out, img, free0, old(m.pmm.last), m.pmm.highest);
    RunsHere(out, img, |free0| - 1);
    TwiceSound(img);
    LostExactly(m, out, img, 176, None, free0, lost, stack);
    LoadedSpace(m, out, img, 176, None, free0, lost, stack);
    Exit(m, out.root);
  }

  /** With seven there is none for the stack: the exec fails and cleans up, and a frame is lost all the
      same. */
  method LoseOnFailure(m: Machine) returns (out: Outcome, ghost lost: set<nat>)
    requires m.Valid() && |m.Free()| == 7
    modifies m`mem, m.pmm`freeMemory, m.pmm`last, m.pmm.bitmap
    ensures m.Valid() && out == NoStack && |lost| == 1
    ensures lost <= old(m.Free()) && m.Free() == old(m.Free()) - lost
  {
    hide Allocator.Free, TwoSegments, ElfSound, MapsTwice, NoneToTake, Loaded, Ends, ExecEnds, ExecLoses, LostFor, MappedPages;
    SoundFile();
    FreeBelow(m);
    SinglePage(m.Free(), m.pmm.last, m.pmm.highest);
    ghost var free0 := m.Free();
    ghost var img, stack;
    out, img, lost, stack := Exec(m, TwoSegments(), 176, None);
    InBuffer(out, img, free0, old(m.pmm.last), m.pmm.highest);
    FailsHere(out, img);
    LosesHere(lost, img, free0, old(m.pmm.last), m.pmm.highest);
  }

  /** Without the stack: two mappings and three tables. */
  lemma FramesForSegments()
    ensures Need([1024, 1024]) == 5
  {
    NeedNext([], 1024);
    NeedNext([1024], 1024);
    assert [] + [1024] == [1024] && [1024] + [1024] == [1024, 1024];
  }

  lemma FailsHere(out: Outcome, img: seq<Byte>)
    requires 176 <= |img| && img[..176] == TwoSegments() && Ends(out, img, 176, 176, 6)
    ensures out == NoStack && MappedPages(img, 176, 176, 6) == [1024, 1024]
  {
    hide TwoSegments, HasMagic, HeadersFit, FileSound, PhNum, Entry64, Visits, Need, Reach, NoPageTwice, Afforded, Mappings;
    SharesAPage(img);
    FramesForSegments();
    FramesNeeded();
    StackStopped(img, 176, 5);
  }

  lemma LosesHere(lost: set<nat>, img: seq<Byte>, free0: set<nat>, last: nat, highest: nat)
    requires |free0| == 7 && !NoneToTake(free0, last, highest, 1) && 176 <= |img|
    requires ExecLoses(lost, TwoSegments(), img, 176, free0, last, highest)
    requires MappedPages(img, 176, 176, 6) == [1024, 1024]
    ensures |lost| == 1
  {
    hide TwoSegments, NoneToTake, MappedPages;
    assert Elems([1024, 1024]) == {1024};
  }

  lemma InBuffer(out: Outcome, img: seq<Byte>, free0: set<nat>, last: nat, highest: nat)
    requires ExecEnds(out, TwoSegments(), img, 176, free0, last, highest) && !NoneToTake(free0, last, highest, 1)
    ensures 176 <= |img| && img[..176] == TwoSegments() && Ends(out, img, 176, 176, |free0| - 1)
    ensures MapsTwice(img, 176)
  {
    hide TwoSegments, NoneToTake, Ends, MapsTwice, Reach, PhNum, Visits;
    SharesAPage(img);
  }

  lemma RunsHere(out: Outcome, img: seq<Byte>, room: int)
    requires 176 <= |img| && img[..176] == TwoSegments() && Ends(out, img, 176, 176, room) && room >= 10
    ensures out.Running?
  {
    hide TwoSegments, Ends, HasMagic, HeadersFit, FileSound, PhNum, Entry64, Visits, Need, Reach, NoPageTwice;
    SharesAPage(img);
    FramesNeeded();
    RunsExactly(out, img, 176, 176, room);
  }

  lemma FreeBelow(m: Machine)
    requires m.Valid()
    ensures m.pmm.last <= m.pmm.highest && forall p :: p in m.Free() ==> p < m.pmm.highest
  {
  }

  lemma TwiceSound(img: seq<Byte>)
    requires MapsTwice(img, 176)
    ensures 64 <= |img| && HeadersFit(img, 176) && FileSound(img, 176) && !NoPageTwice(img, 176)
  {
  }

  lemma LoadedSpace(m: Machine, out: Outcome, img: seq<Byte>, size: nat, args: Option<seq<Byte>>,
                    free0: set<nat>, lost: set<nat>, stack: Page)
    requires Loaded(m, out, img, size, args, free0, lost, stack)
    ensures m.Valid() && out.Running? && m.Space(out.root)
    ensures m.Free() + Frames(m.mem, out.root) == free0 - lost && lost <= free0
  {
  }
}
