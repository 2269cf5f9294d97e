/** A disk the driver accepts, mounted from its boot sector and written to through the driver: an
    overwrite that runs out of room, and a file stored under a name that makes it disappear. */
module Fat16Example {
  import opened Bytes
  import opened Fat16Layout
  import opened Fat16Chains
  import opened Fat16Files
  import opened Fat16Names
  import opened Fat16Store
  import opened Fat16Write
  import opened Fat16Driver

  const A_TXT: Name := [0x41, 0x20, 0x20, 0x20, 0x20, 0x20, 0x20, 0x20, 0x54, 0x58, 0x54]

  /** "a.txt" as a program spells it. */
  const SPELLED: CString := [0x61, 0x2E, 0x74, 0x78, 0x74]

  /** One sector per cluster, one reserved sector, two tables of one sector, sixteen root entries and
      eight sectors in all: four clusters. */
  const GEOMETRY: Bpb := Bpb(512, 1, 1, 2, 16, 8, 1, 0)

  function Zeros(): Sector { seq(512, _ => 0) }

  function BootSector(): Sector {
    Zeros()[12 := 2][13 := 1][14 := 1][16 := 2][17 := 16][19 := 8][22 := 1][510 := 0x55][511 := 0xAA]
  }

  /** The media entry and the reserved one, then cluster 2 as the end of a chain. */
  function TableSector(): Sector {
    Zeros()[0 := 0xF8][1 := 0xFF][2 := 0xFF][3 := 0xFF][4 := 0xFF][5 := 0xFF]
  }

  function FileSlot(): Slot { Filled(seq(32, _ => 0), A_TXT, 2, 1) }

  function RootSector(): Sector { Spliced(Zeros(), 0, FileSlot()) }

  function Disk(): (d: seq<Sector>)
    ensures |d| == 8
  {
    [BootSector(), TableSector(), TableSector(), RootSector(), Zeros()[0 := 7], Zeros(), Zeros(), Zeros()]
  }

  function NoChains(): seq<seq<nat>> { seq(15, _ => []) }

  /** The file owns cluster 2, the other fifteen slots own nothing. */
  function Chains(): (cs: seq<seq<nat>>)
    ensures |cs| == 16 && cs[0] == [2] && forall k :: 1 <= k < 16 ==> cs[k] == []
  {
    [[2]] + NoChains()
  }

  lemma BootSectorParsed()
    ensures ParseBpb(BootSector()) == GEOMETRY && Le16(BootSector(), 510) == 0xAA55
    ensures GEOMETRY.Sound(8) && GEOMETRY.ClusterSize() == 512 && GEOMETRY.TotalClusters() == 4
    ensures GEOMETRY.RootDirSector() == 3 && GEOMETRY.DataSector() == 4 && Mirrored(Disk(), GEOMETRY)
  {
  }

  /** The volume on the disk: entry 2 ends a chain and 3, 4 and 5 are free; the first slot is the file;
      cluster 2 holds its byte. */
  lemma VolumeOnDisk()
    ensures GEOMETRY.Sound(|Disk()|)
    ensures var v := VolumeOf(Disk(), GEOMETRY);
      && |v.fat| == 256 && v.fat[2] == 0xFFFF && v.fat[3] == 0 && v.fat[4] == 0 && v.fat[5] == 0
      && |v.root| == 16 && v.root[0] == FileSlot() && (forall k :: 1 <= k < 16 ==> v.root[k][0] == 0)
      && |v.data| == 6 && |v.data[2]| == 512 && v.data[2][..1] == [7]
      && Shaped(v, 512)
  {
    hide Disk, FatOf, RootOf, DataOf, FileSlot, Bpb.Sound, Bpb.TotalClusters;
    BootSectorParsed();
    VolumeShaped(Disk(), GEOMETRY);
    TableOnDisk();
    RootOnDisk();
    ClusterOnDisk();
  }

  lemma TableOnDisk()
    ensures GEOMETRY.Sound(|Disk()|) && |FatOf(Disk(), GEOMETRY)| == 256
    ensures FatOf(Disk(), GEOMETRY)[2] == 0xFFFF
    ensures FatOf(Disk(), GEOMETRY)[3] == 0 && FatOf(Disk(), GEOMETRY)[4] == 0 && FatOf(Disk(), GEOMETRY)[5] == 0
  {
    hide BootSector, RootSector, FatOf, TableSector;
    BootSectorParsed();
    TableEntries();
    FatAt(Disk(), GEOMETRY, 2);
    FatAt(Disk(), GEOMETRY, 3);
    FatAt(Disk(), GEOMETRY, 4);
    FatAt(Disk(), GEOMETRY, 5);
  }

  lemma TableEntries()
    ensures Le16(TableSector(), 4) == 0xFFFF
    ensures Le16(TableSector(), 6) == 0 && Le16(TableSector(), 8) == 0 && Le16(TableSector(), 10) == 0
  {
  }

  lemma RootOnDisk()
    ensures GEOMETRY.Sound(|Disk()|) && |RootOf(Disk(), GEOMETRY)| == 16
    ensures RootOf(Disk(), GEOMETRY)[0] == FileSlot()
    ensures forall k :: 1 <= k < 16 ==> RootOf(Disk(), GEOMETRY)[k][0] == 0
  {
    hide BootSector, TableSector, FileSlot, Spliced;
    BootSectorParsed();
    forall k | 0 <= k < 16
      ensures RootOf(Disk(), GEOMETRY)[k] == if k == 0 then FileSlot() else Zeros()[32 * k..32 * k + 32]
    {
      RootSlot(k);
    }
  }

  lemma RootSlot(k: nat)
    requires k < 16
    ensures GEOMETRY.Sound(|Disk()|)
    ensures RootOf(Disk(), GEOMETRY)[k] == if k == 0 then FileSlot() else Zeros()[32 * k..32 * k + 32]
  {
    hide BootSector, TableSector, FileSlot, Spliced, Zeros, RootOf;
    BootSectorParsed();
    SlotIs(Disk(), GEOMETRY, 0, k);
    SlotSpliced(Zeros(), 0, FileSlot(), 32 * k);
  }

  lemma ClusterOnDisk()
    ensures GEOMETRY.Sound(|Disk()|) && |DataOf(Disk(), GEOMETRY)| == 6
    ensures DataOf(Disk(), GEOMETRY)[2] == Zeros()[0 := 7]
  {
    hide BootSector, TableSector, RootSector;
    BootSectorParsed();
    ClusterIsSpan(Disk(), GEOMETRY, 2);
    SpanNext(Disk(), 4, 0);
    assert Span(Disk(), 4, 1) == Disk()[4];
  }

  /** The volume is sound and holds one file of one byte. */
  lemma DiskSound()
    ensures GEOMETRY.Sound(|Disk()|)
    ensures var v := VolumeOf(Disk(), GEOMETRY);
      && DirectoryOk(v.root) && Owns(v, 512, Chains()) && NamedAt(v.root, A_TXT, 0)
      && Shaped(v, 512) && Files(v, 512) == map[A_TXT := [7]]
  {
    hide Filled, VolumeOf, Disk, Bpb.Sound, FileSlot;
    VolumeOnDisk();
    var v := VolumeOf(Disk(), GEOMETRY);
    FileSlotIs();
    ChainsOwned(v);
    assert NamedAt(v.root, A_TXT, 0);
    OneFile(v);
  }

  lemma OneFile(v: Volume)
    requires Shaped(v, 512) && |v.root| == 16 && |v.data| == 6 && v.data[2][..1] == [7]
    requires v.root[0] == FileSlot() && forall k :: 1 <= k < 16 ==> v.root[k][0] == 0
    ensures DirectoryOk(v.root) && Files(v, 512) == map[A_TXT := [7]]
  {
    hide FileSlot, Shaped, Walk;
    FileSlotIs();
    assert IsFile(v.root[0]) && NameOf(v.root[0]) == A_TXT;
    assert FileNames(v.root) == {A_TXT};
    FileFound(v, 512, 0);
    WalkStepHere(v);
  }

  lemma WalkStepHere(v: Volume)
    requires Shaped(v, 512) && |v.data| == 6
    ensures Walk(v, 512, 2, 1) == v.data[2][..1]
  {
    WalkStep(v, 512, 2, 1);
  }

  lemma FileSlotIs()
    ensures var t := FileSlot();
      NameOf(t) == A_TXT && t[0] == 0x41 && IsFile(t) && FirstCluster(t) == 2 && FileSize(t) == 1
  {
    hide Filled;
    assert NameOf(FileSlot())[0] == FileSlot()[0];
  }

  lemma ChainsOwned(v: Volume)
    requires Shaped(v, 512) && |v.root| == 16 && |v.data| == 6 && |v.fat| == 256 && v.fat[2] == 0xFFFF
    requires v.root[0] == FileSlot() && forall k :: 1 <= k < 16 ==> v.root[k][0] == 0
    ensures Owns(v, 512, Chains())
  {
    hide FileSlot, Shaped;
    FileSlotIs();
    CapacityNext(0, 512);
    assert IsChain(v, 2, [2]);
  }

  /** Three sectors' worth does not fit: the search for a cluster sees clusters 2 and 3 only. */
  lemma NoRoomForThree()
    ensures GEOMETRY.Sound(|Disk()|) && !CanStore(VolumeOf(Disk(), GEOMETRY), 512, A_TXT, 1025)
    ensures Occupied(VolumeOf(Disk(), GEOMETRY), A_TXT)
  {
    hide VolumeOf, Disk, Bpb.Sound, FileSlot, Freed, Owns, DirectoryOk, Files, Shaped;
    VolumeOnDisk();
    DiskSound();
    var v := VolumeOf(Disk(), GEOMETRY);
    OccupiedOwns(v, 512, Chains(), A_TXT);
    MatchUnique(v.root, A_TXT, 0);
    ReleasedRoom(v, 512, Chains(), A_TXT, 0);
    assert Room(Released(v, A_TXT)) <= {2, 3};
    RoomBound(Room(Released(v, A_TXT)));
    CapacityNext(0, 512);
    CapacityNext(1, 512);
  }

  lemma RoomBound(room: set<nat>)
    requires room <= {2, 3}
    ensures |room| <= 2
  {
    assert room == {} || room == {2} || room == {3} || room == {2, 3};
  }

  lemma SpelledName()
    ensures FatName(SPELLED) == A_TXT
  {
    DotUnique(SPELLED, 1);
  }

  /** A driver for that disk, mounted from its boot sector. */
  method MountedDriver() returns (d: Driver)
    ensures fresh(d) && d.Valid() && d.disk == Disk() && d.bpb == GEOMETRY && d.chains == Chains()
    ensures d.Contents() == map[A_TXT := [7]]
  {
    hide VolumeOf, Bpb.Sound, Owns, DirectoryOk, Files, Shaped, BootSector, TableSector, RootSector, Chains, Mirrored, ParseBpb;
    BootSectorParsed();
    DiskSound();
    d := new Driver(Disk());
    d.Init();
    d.chains := Chains();
  }

  /** The overwrite fails, as the return value says, and no assignment of chains makes the volume that
      it leaves a sound one. */
  method FailedOverwrite() returns (d: Driver, r: int, ghost before: map<seq<Byte>, seq<Byte>>)
    ensures before == map[A_TXT := [7]] && r == 0
    ensures d.Mounted() && Cleared(d.V(), A_TXT)
    ensures forall chains :: !Owns(d.V(), d.bpb.ClusterSize(), chains)
  {
    hide VolumeOf, Bpb.Sound, Owns, DirectoryOk, Files, Shaped, Disk, Chains, CanStore, FatName, Cleared, Occupied, UsedKept, Released;
    d := MountedDriver();
    before := d.Contents();
    SpelledName();
    NoRoomForThree();
    ghost var v := d.V();
    r := d.WriteFile(SPELLED, seq(1025, _ => 0));
    VolumeShaped(d.disk, d.bpb);
    FailedCleared(v, d.V(), 512, Chains(), A_TXT);
    WriteFailed(v, d.V(), 512, Chains(), A_TXT);
  }

  /** A name of the one character 0xE5. */
  const HIDDEN: CString := [0xE5]

  lemma HiddenName()
    ensures FatName(HIDDEN)[0] == 0xE5
  {
  }

  /** One cluster is in reach of the search, there are slots left, and no cluster is lost. */
  lemma RoomForOne(n: Name)
    requires n[0] == 0xE5
    ensures GEOMETRY.Sound(|Disk()|) && CanStore(VolumeOf(Disk(), GEOMETRY), 512, n, 1)
    ensures Room(VolumeOf(Disk(), GEOMETRY)) == {3} && LostClusters(VolumeOf(Disk(), GEOMETRY), Chains()) == {}
  {
    hide VolumeOf, Disk, Bpb.Sound, FileSlot, Freed, Owns, DirectoryOk, Files, Shaped;
    VolumeOnDisk();
    var v := VolumeOf(Disk(), GEOMETRY);
    assert !HasName(v.root, n) && !Live(v.root[1]);
    NothingReleased(v, n);
    assert Allocatable(v, 3);
    assert Room(v) == {3};
    CapacityNext(0, 512);
    NoneLost(v);
  }

  lemma NoneLost(v: Volume)
    requires |v.data| == 6 && |v.fat| == 256 && v.fat[3] == 0 && v.fat[4] == 0 && v.fat[5] == 0
    ensures LostClusters(v, Chains()) == {}
  {
    assert 2 in Chains()[0];
  }

  /** The write reports its byte as written, there is the one file there was, and cluster 3 is lost. */
  method HiddenWrite() returns (d: Driver, r: int)
    ensures r == 1 && d.Valid() && d.Contents() == map[A_TXT := [7]]
    ensures LostClusters(d.V(), d.chains) == {3}
  {
    hide VolumeOf, Bpb.Sound, Owns, DirectoryOk, Files, Shaped, Disk, Chains, CanStore, FatName, Occupied, UsedKept, Released,
      ChainOrphaned;
    d := MountedDriver();
    HiddenName();
    RoomForOne(FatName(HIDDEN));
    ghost var v := d.V();
    r := d.WriteFile(HIDDEN, [1]);
    OneOrphan(v, d.V());
  }

  lemma OneOrphan(v: Volume, w: Volume)
    requires Room(v) == {3} && LostClusters(v, Chains()) == {} && ChainOrphaned(v, w, Chains(), 512, 1)
    ensures LostClusters(w, Chains()) == {3}
  {
    hide Chains, Room, LostClusters;
    var cs :| Orphaned(v, w, Chains(), cs) && cs != [] && Fits(1, |cs|, 512);
    assert cs[0] in Elements(cs);
    assert Elements(cs) == {3};
  }
}
