/** The FAT16 driver: a disk of sectors, changed in place one sector at a time. */
module Fat16Driver {
  import opened Bytes
  import opened Fat16Layout
  import opened Fat16Chains
  import opened Fat16Raw
  import opened Fat16Files
  import opened Fat16Names
  import opened Fat16Store
  import opened Fat16Write

  /** How a C int shows a uint32_t. */
  function AsInt(x: nat): int
    requires x < 0x1_0000_0000
  {
    if x < 0x8000_0000 then x else x - 0x1_0000_0000
  }

  /** Nothing outside the volume's tables, root directory and clusters differs. */
  ghost predicate OutsideKept(d: seq<Sector>, e: seq<Sector>, b: Bpb) {
    |d| == |e| && forall s :: 0 <= s < |d| && (s < b.reservedSectors || b.TotalSectors() <= s) ==> d[s] == e[s]
  }

  lemma OutsideKeptTwice(d: seq<Sector>, e: seq<Sector>, f: seq<Sector>, b: Bpb)
    ensures OutsideKept(d, d, b)
    ensures OutsideKept(d, e, b) && OutsideKept(e, f, b) ==> OutsideKept(d, f, b)
  {
  }

  lemma EntryKeeps(d: seq<Sector>, b: Bpb, c: nat, value: nat)
    requires b.Sound(|d|) && c < b.TableEntries() && value < 0x1_0000
    requires EntrySector(b, c) < |d| && (b.tables > 1 ==> EntrySector(b, c) + b.tableSize < |d|)
    ensures OutsideKept(d, WithEntry(d, b, c, value), b)
  {
    EntryFits(d, b, c);
    TablesFit(d, b);
  }

  lemma {:induction false} SweptKeeps(d: seq<Sector>, b: Bpb, c: nat)
    requires b.Sound(|d|) && StaysInTable(FatOf(d, b), c)
    ensures OutsideKept(d, Swept(d, b, c), b)
    decreases RankOf(d, b, 256)
  {
    hide FatOf, RootOf, DataOf, Mirrored, WithEntry, Le16, RankOf, OutsideKept;
    OutsideKeptTwice(d, d, d, b);
    if Followed(c) {
      FatSize(d, b);
      EntryFits(d, b, c);
      FatAt(d, b, c);
      EntryKeeps(d, b, c, 0);
      EntryWritten(d, b, c, 0);
      if Word(d, b, c) != 0 {
        ClearDrops(d, b, c);
        SweptKeeps(WithEntry(d, b, c, 0), b, Word(d, b, c));
        OutsideKeptTwice(d, WithEntry(d, b, c, 0), Swept(d, b, c), b);
      }
    }
  }

  class Driver {
    var disk: seq<Sector>
    var bpb: Bpb
    var rootDirSector: nat
    var rootDirSize: nat
    var dataSector: nat
    ghost var chains: seq<seq<nat>>  // the clusters each root slot owns

    ghost predicate Mounted()
      reads this
    {
      && bpb.Sound(|disk|) && Mirrored(disk, bpb)
      && rootDirSector == bpb.RootDirSector() && rootDirSize == bpb.RootDirSize() && dataSector == bpb.DataSector()
    }

    /** The driver knows where the clusters are. */
    ghost predicate Placed()
      reads this
    {
      bpb.sectorsPerCluster >= 1 && dataSector == bpb.DataSector()
    }

    ghost function V(): Volume
      requires Mounted()
      reads this
    {
      VolumeOf(disk, bpb)
    }

    ghost predicate Valid()
      reads this
    {
      Mounted() && DirectoryOk(V().root) && Owns(V(), bpb.ClusterSize(), chains)
    }

    ghost function Contents(): map<seq<Byte>, seq<Byte>>
      requires Mounted()
      reads this
    {
      VolumeShaped(disk, bpb);
      Files(V(), bpb.ClusterSize())
    }

    constructor (disk: seq<Sector>)
      ensures this.disk == disk
    {
      this.disk := disk;
      bpb := Bpb(0, 0, 0, 0, 0, 0, 0, 0);
      rootDirSector, rootDirSize, dataSector := 0, 0, 0;
    }

    method ReadSector(lba: nat) returns (s: Sector)
      requires lba < |disk|
      ensures s == disk[lba]
    {
      s := disk[lba];
    }

    method WriteSector(lba: nat, s: Sector)
      requires lba < |disk|
      modifies this`disk
      ensures disk == old(disk)[lba := s]
    {
      disk := disk[lba := s];
    }

    method Init()
      requires |disk| > 0
      modifies this`bpb, this`rootDirSector, this`rootDirSize, this`dataSector
      ensures if Le16(disk[0], 510) == 0xAA55 then bpb == ParseBpb(disk[0]) else bpb == old(bpb)
      ensures Le16(disk[0], 510) == 0xAA55 && bpb.Sound(|disk|) && Mirrored(disk, bpb) ==> Mounted()
      ensures Le16(disk[0], 510) != 0xAA55 ==> (Mounted() <==> old(Mounted()))
    {
      hide Mirrored, Bpb.Sound, ParseBpb, Le16;
      var buffer := ReadSector(0);
      if Le16(buffer, 510) != 0xAA55 {
        return;
      }
      bpb := ParseBpb(buffer);
      rootDirSector := bpb.reservedSectors + bpb.tables * bpb.tableSize;
      rootDirSize := bpb.rootEntries * 32 / 512;
      dataSector := rootDirSector + rootDirSize;
    }

    // ----- the allocation table

    /** fat16_get_fat_entry, wherever the word for that cluster lies. */
    method LoadEntry(c: nat) returns (value: nat)
      requires EntrySector(bpb, c) < |disk|
      ensures value == Word(disk, bpb, c)
    {
      var fatOffset := c * 2;
      assert fatOffset / 512 == c / 256 && fatOffset % 512 == 2 * (c % 256);
      var sector := ReadSector(bpb.reservedSectors + fatOffset / 512);
      value := Le16(sector, fatOffset % 512);
    }

    /** fat16_set_fat_entry, wherever the word for that cluster lies. */
    method StoreEntry(c: nat, value: nat)
      requires EntryOnDisk(disk, bpb, c) && value < 0x1_0000
      modifies this`disk
      ensures disk == WithEntry(old(disk), bpb, c, value)
    {
      hide Put16;
      var fatOffset := c * 2;
      var fatSector := bpb.reservedSectors + fatOffset / 512;
      assert fatOffset / 512 == c / 256 && fatOffset % 512 == 2 * (c % 256);
      var sector := ReadSector(fatSector);
      sector := Put16(sector, fatOffset % 512, value);
      WriteSector(fatSector, sector);
      if bpb.tables > 1 {
        WriteSector(fatSector + bpb.tableSize, sector);
      }
    }

    /** The entry of a cluster in the table of a sound volume. */
    method GetFatEntry(c: nat) returns (value: nat)
      requires Mounted() && c < bpb.TableEntries()
      ensures value == V().fat[c] && value < 0x1_0000
    {
      hide FatOf, RootOf, DataOf, Mirrored, Le16;
      FatAt(disk, bpb, c);
      value := LoadEntry(c);
    }

    method SetFatEntry(c: nat, value: nat)
      requires Mounted() && c < bpb.TableEntries() && value < 0x1_0000
      modifies this`disk
      ensures Mounted() && V() == old(V().(fat := V().fat[c := value]))
      ensures |disk| == |old(disk)|
      ensures forall s | 0 <= s < |disk| ::
        (s == EntrySector(bpb, c) || s == EntrySector(bpb, c) + bpb.tableSize || disk[s] == old(disk)[s])
      ensures OutsideKept(old(disk), disk, bpb)
    {
      hide FatOf, RootOf, DataOf, Mirrored, Put16, OutsideKept;
      EntryFits(disk, bpb, c);
      EntryWritten(disk, bpb, c, value);
      EntryKeeps(disk, bpb, c, value);
      StoreEntry(c, value);
    }

    /** The first free cluster below the allocator's limit, marked as the end of a chain; or 0. */
    method AllocCluster() returns (c: nat)
      requires Mounted()
      modifies this`disk
      ensures Mounted() && OutsideKept(old(disk), disk, bpb)
      ensures c == 0 ==> disk == old(disk) && Room(V()) == {}
      ensures c != 0 ==> c < |old(V()).fat| && Allocatable(old(V()), c)
      ensures c != 0 ==> forall i :: 2 <= i < c ==> old(V()).fat[i] != 0
      ensures c != 0 ==> V() == old(V().(fat := V().fat[c := 0xFFFF]))
    {
      hide FatOf, RootOf, DataOf, Mirrored;
      TablesFit(disk, bpb);
      VolumeShaped(disk, bpb);
      var totalSectors := bpb.totalSectors16;
      if totalSectors == 0 { totalSectors := bpb.totalSectors32; }
      var rootDirSectors := (bpb.rootEntries * 32 + (bpb.bytesPerSector - 1)) / bpb.bytesPerSector;
      var dataSectors := totalSectors - (bpb.reservedSectors + bpb.tables * bpb.tableSize + rootDirSectors);
      var totalClusters := dataSectors / bpb.sectorsPerCluster;
      assert totalClusters == bpb.TotalClusters();
      var i := 2;
      while i < totalClusters && i < 0xFFF0
        invariant 2 <= i && disk == old(disk)
        invariant forall j :: 2 <= j < i ==> j < |V().fat| && V().fat[j] != 0
      {
        var e := GetFatEntry(i);
        if e == 0 {
          SetFatEntry(i, 0xFFFF);
          return i;
        }
        i := i + 1;
      }
      return 0;
    }

    /** Zeroes the table entries along a chain. It ends on any disk whatever, cyclic links and links out
        of the table included. */
    method FreeChain(start: nat)
      requires SweepOnDisk(disk, bpb, start)
      modifies this`disk
      ensures disk == Swept(old(disk), bpb, start)
    {
      hide WithEntry, RankOf, Word;
      var c := start;
      while Followed(c)
        invariant SweepOnDisk(disk, bpb, c) && Swept(disk, bpb, c) == Swept(old(disk), bpb, start)
        decreases if Followed(c) then 1 else 0, RankOf(disk, bpb, 256)
      {
        var next := LoadEntry(c);
        if next != 0 {
          ClearDrops(disk, bpb, c);
        }
        StoreEntry(c, 0);
        c := next;
      }
    }

    /** On the table of a volume it frees what can be reached from its start. */
    method FreeOwned(start: nat)
      requires Mounted() && StaysInTable(V().fat, start)
      modifies this`disk
      ensures Mounted() && OutsideKept(old(disk), disk, bpb)
      ensures V() == old(V().(fat := Freed(V().fat, start)))
    {
      hide FatOf, RootOf, DataOf, Mirrored, Swept, SweepOnDisk, StaysInTable, Freed, OutsideKept, Bpb.Sound;
      SweptInTable(disk, bpb, start);
      SweptKeeps(disk, bpb, start);
      FreeChain(start);
    }

    // ----- cluster contents

    /** write_buf: up to 512 bytes from `done` on, the rest zero. */
    method FillSector(bytes: seq<Byte>, done: nat) returns (buf: Sector, done': nat)
      requires done <= |bytes|
      ensures buf == Padded(bytes, done, 512)
      ensures done' == if done + 512 < |bytes| then done + 512 else |bytes|
    {
      buf := seq(512, _ => 0);
      done' := done;
      var k := 0;
      while k < 512 && done' < |bytes|
        invariant 0 <= k <= 512 && done' == done + k <= |bytes|
        invariant forall j :: 0 <= j < 512 ==> buf[j] == if j < k then bytes[done + j] else 0
      {
        buf := buf[k := bytes[done']];
        k, done' := k + 1, done' + 1;
      }
    }

    /** Writes the next ClusterSize bytes, zero padded, into cluster c. */
    method StoreCluster(c: nat, bytes: seq<Byte>, done: nat) returns (done': nat)
      requires Mounted() && 2 <= c < |V().data| && done <= |bytes|
      modifies this`disk
      ensures Mounted() && OutsideKept(old(disk), disk, bpb)
      ensures V() == old(V().(data := V().data[c := Padded(bytes, done, bpb.ClusterSize())]))
      ensures done' == if done + bpb.ClusterSize() < |bytes| then done + bpb.ClusterSize() else |bytes|
    {
      hide FatOf, RootOf, DataOf, Mirrored, Padded, Span, ClusterOf, Bpb.TotalClusters, Bpb.TotalSectors;
      TablesFit(disk, bpb);
      VolumeShaped(disk, bpb);
      ClusterFits(disk, bpb, c);
      ghost var d := disk;
      var sector := dataSector + (c - 2) * bpb.sectorsPerCluster;
      done' := done;
      var j := 0;
      SpanNone(disk, sector, bytes, done);
      while j < bpb.sectorsPerCluster
        invariant 0 <= j <= bpb.sectorsPerCluster && |disk| == |d|
        invariant forall s :: 0 <= s < |d| && !(sector <= s < sector + j) ==> disk[s] == d[s]
        invariant done <= |bytes| && done' == if done + 512 * j < |bytes| then done + 512 * j else |bytes|
        invariant Span(disk, sector, j) == Padded(bytes, done, 512 * j)
      {
        var buf;
        buf, done' := FillSector(bytes, done');
        ghost var before := disk;
        WriteSector(sector + j, buf);
        SpanNext(disk, sector, j);
        SpanUnchanged(before, disk, sector, j);
        PaddedGrows(bytes, done, 512 * j, if done + 512 * j < |bytes| then done + 512 * j else |bytes|);
        j := j + 1;
      }
      ClusterIsSpan(disk, bpb, c);
      ClusterWritten(d, disk, bpb, c);
    }

    /** The body of the write loop once cluster c has been allocated: link it, then fill it. */
    method ExtendChain(c: nat, first: nat, current: nat, bytes: seq<Byte>, done: nat,
                       ghost v0: Volume, ghost v: Volume, ghost cs: seq<nat>)
      returns (done': nat)
      requires Mounted() && Building(v0, v, bpb.ClusterSize(), bytes, cs)
      requires c < |v.fat| && Allocatable(v, c) && V() == v.(fat := v.fat[c := 0xFFFF])
      requires if cs == [] then first == 0 else first == cs[0] != 0 && current == cs[|cs| - 1]
      requires done == Capacity(|cs|, bpb.ClusterSize()) <= |bytes|
      modifies this`disk
      ensures Mounted() && OutsideKept(old(disk), disk, bpb)
      ensures Building(v0, V(), bpb.ClusterSize(), bytes, cs + [c])
      ensures done' == Written(|cs| + 1, bpb.ClusterSize(), |bytes|)
    {
      hide FatOf, RootOf, DataOf, Mirrored, Padded;
      VolumeShaped(disk, bpb);
      if first != 0 {
        SetFatEntry(current, c);
      }
      VolumeShaped(disk, bpb);
      assert V() == v.(fat := Linked(v.fat, cs, c));
      done' := StoreCluster(c, bytes, done);
      BuildingStep(v0, v, bpb.ClusterSize(), bytes, cs, c);
      CapacityNext(|cs|, bpb.ClusterSize());
    }

    /** The clean-up of a write that ran out of clusters. */
    method RollBack(first: nat, ghost v0: Volume, ghost bytes: seq<Byte>, ghost cs: seq<nat>)
      requires Mounted() && Building(v0, V(), bpb.ClusterSize(), bytes, cs)
      requires if cs == [] then first == 0 else first == cs[0] != 0
      modifies this`disk
      ensures Mounted() && OutsideKept(old(disk), disk, bpb)
      ensures UsedKept(v0, V())
    {
      hide FatOf, RootOf, DataOf, Mirrored;
      if first != 0 {
        BuildingChain(v0, V(), bpb.ClusterSize(), bytes, cs);
        ChainStays(V(), first, cs);
        BuildingUndone(v0, V(), bpb.ClusterSize(), bytes, cs);
        FreeOwned(first);
      }
    }

    /** The allocation loop of a write: a chain holding the bytes, or, when the clusters run out, the
        table exactly as it was. */
    method WriteChain(bytes: seq<Byte>) returns (first: nat, ghost cs: seq<nat>)
      requires Mounted() && |bytes| < 0x1_0000_0000
      modifies this`disk
      ensures Mounted() && OutsideKept(old(disk), disk, bpb)
      ensures first != 0 <==> HasRoom(|Room(old(V()))|, |bytes|, bpb.ClusterSize())
      ensures first != 0 ==> Building(old(V()), V(), bpb.ClusterSize(), bytes, cs)
      ensures first != 0 ==> cs != [] && cs[0] == first && Fits(|bytes|, |cs|, bpb.ClusterSize())
      ensures first == 0 ==> UsedKept(old(V()), V())
    {
      hide FatOf, RootOf, DataOf, Mirrored, Building, Capacity, Room, Fits, OutsideKept, UsedKept, Shaped, Bpb.Sound, Allocatable;
      VolumeShaped(disk, bpb);
      CapacityNext(0, bpb.ClusterSize());
      ghost var v0 := V();
      BuildingStart(v0, bpb.ClusterSize(), bytes);
      OutsideKeptTwice(disk, disk, disk, bpb);
      first, cs := 0, [];
      var current, done := 0, 0;
      while done < |bytes| || (|bytes| == 0 && first == 0)
        invariant Mounted() && OutsideKept(old(disk), disk, bpb)
        invariant Building(v0, V(), bpb.ClusterSize(), bytes, cs)
        invariant if cs == [] then first == 0 else first == cs[0] != 0 && current == cs[|cs| - 1]
        invariant done == Written(|cs|, bpb.ClusterSize(), |bytes|)
        invariant cs != [] ==> |bytes| > 0 && Capacity(|cs|, bpb.ClusterSize()) < |bytes| + bpb.ClusterSize()
        decreases |Room(V())|
      {
        ghost var v := V();
        BuildingRoom(v0, v, bpb.ClusterSize(), bytes, cs);
        ghost var before := disk;
        var c := AllocCluster();
        OutsideKeptTwice(old(disk), before, disk, bpb);
        if c == 0 {
          RollBack(first, v0, bytes, cs);
          OutsideKeptTwice(old(disk), before, disk, bpb);
          return 0, cs;
        }
        ghost var d := disk;
        done := ExtendChain(c, first, current, bytes, done, v0, v, cs);
        OutsideKeptTwice(old(disk), d, disk, bpb);
        CapacityNext(|cs|, bpb.ClusterSize());
        if first == 0 { first := c; }
        current, cs := c, cs + [c];
        BuildingRoom(v0, V(), bpb.ClusterSize(), bytes, cs);
        if |bytes| == 0 { break; }
      }
      EnoughMeansRoom(v0, V(), bpb.ClusterSize(), bytes, cs);
      WrittenFits(|cs|, bpb.ClusterSize(), |bytes|);
    }

    // ----- the root directory

    /** The byte-by-byte comparison of an entry's name and extension with the requested name. */
    method NamesMatch(slot: Slot, n: Name) returns (same: bool)
      ensures same == (NameOf(slot) == n)
    {
      same := true;
      var j := 0;
      while j < 11
        invariant 0 <= j <= 11 && same == (slot[..j] == n[..j])
      {
        assert slot[..j + 1] == slot[..j] + [slot[j]] && n[..j + 1] == n[..j] + [n[j]];
        if slot[j] != n[j] {
          same := false;
        }
        j := j + 1;
      }
    }

    ghost predicate SlotIn(sec: nat, i: nat, s: Sector)
      requires Mounted()
      reads this
    {
      sec < rootDirSize && i < 16 && 16 * sec + i < |V().root| && s[32 * i..32 * i + 32] == V().root[16 * sec + i]
    }

    method ReadRootSector(sec: nat) returns (s: Sector)
      requires Mounted() && sec < rootDirSize
      ensures forall i :: 0 <= i < 16 ==> SlotIn(sec, i, s)
      ensures s == disk[rootDirSector + sec] && rootDirSector + sec < |disk|
    {
      hide FatOf, DataOf, Mirrored, SlotOf;
      TablesFit(disk, bpb);
      VolumeShaped(disk, bpb);
      s := ReadSector(rootDirSector + sec);
      forall i | 0 <= i < 16 ensures SlotIn(sec, i, s) {
        SlotIs(disk, bpb, sec, i);
      }
    }

    /** The search that reading, sizing and deleting share: stops at the first 0x00 entry. */
    method FindFile(n: Name) returns (found: bool, sec: nat, i: nat)
      requires Mounted() && DirectoryOk(V().root)
      ensures found ==> sec < rootDirSize && i < 16 && FileAt(V().root, n, 16 * sec + i)
      ensures !found ==> n !in FileNames(V().root)
    {
      hide FatOf, RootOf, DataOf, Mirrored, NameOf;
      TablesFit(disk, bpb);
      VolumeShaped(disk, bpb);
      ghost var root := V().root;
      sec, i, found := 0, 0, false;
      while sec < rootDirSize
        invariant sec <= rootDirSize && !found
        invariant forall k :: 0 <= k < 16 * sec ==> !FileAt(root, n, k)
      {
        var rootSec := ReadRootSector(sec);
        i := 0;
        while i < 16
          invariant 0 <= i <= 16 && !found
          invariant forall k :: 0 <= k < 16 * sec + i ==> !FileAt(root, n, k)
        {
          assert SlotIn(sec, i, rootSec);
          var slot: Slot := rootSec[32 * i..32 * i + 32];
          if slot[0] == 0 {
            assert forall k :: 16 * sec + i <= k < |root| ==> root[k][0] == 0;
            NoFile(root, n);
            return;
          }
          if slot[0] != 0xE5 {
            var same := NamesMatch(slot, n);
            if same && !IsDir(slot) {
              found := true;
              return;
            }
          }
          i := i + 1;
        }
        sec := sec + 1;
      }
      NoFile(root, n);
    }

    /** The search of a write: the entry with the name, else the first free one; -1 if there is neither. */
    method FindTarget(n: Name) returns (matched: bool, sec: nat, idx: int)
      requires Mounted() && DirectoryOk(V().root)
      ensures idx == -1 ==> !matched && !HasTarget(V().root, n)
      ensures idx != -1 ==> sec < rootDirSize && 0 <= idx < 16 && TargetAt(V().root, n, 16 * sec + idx)
      ensures matched <==> HasName(V().root, n)
    {
      hide FatOf, RootOf, DataOf, Mirrored, NameOf;
      TablesFit(disk, bpb);
      VolumeShaped(disk, bpb);
      ghost var root := V().root;
      var s := 0;
      matched, sec, idx := false, 0, -1;
      while s < rootDirSize
        invariant s <= rootDirSize && !matched
        invariant Searched(root, n, 16 * s, sec, idx)
      {
        var rootSec := ReadRootSector(s);
        var i := 0;
        while i < 16
          invariant 0 <= i <= 16 && !matched
          invariant Searched(root, n, 16 * s + i, sec, idx)
        {
          assert SlotIn(s, i, rootSec);
          var slot: Slot := rootSec[32 * i..32 * i + 32];
          if slot[0] == 0 || slot[0] == 0xE5 {
            if idx == -1 {
              sec, idx := s, i;
            }
            if slot[0] == 0 {
              assert forall k :: 16 * s + i <= k < |root| ==> root[k][0] == 0;
              i := 16;
              break;
            }
          } else {
            var same := NamesMatch(slot, n);
            if same {
              assert NamedAt(root, n, 16 * s + i);
              return true, s, i;
            }
          }
          i := i + 1;
        }
        s := s + 1;
      }
    }

    // ----- reading

    /** Copies the first n bytes of a sector into the caller's buffer. */
    method CopySector(buffer: array<Byte>, at: nat, s: Sector, n: nat)
      requires n <= 512 && at + n <= buffer.Length
      modifies buffer
      ensures buffer[..] == Patched(old(buffer[..]), at, s[..n])
    {
      var k := 0;
      while k < n
        invariant 0 <= k <= n
        invariant forall i :: 0 <= i < buffer.Length ==>
          buffer[i] == if at <= i < at + k then s[i - at] else old(buffer[i])
      {
        buffer[at + k] := s[k];
        k := k + 1;
      }
      assert buffer[..] == Patched(old(buffer[..]), at, s[..n]);
    }

    /** One cluster of a file: its sectors in turn, stopping once size bytes have been read. */
    method ReadCluster(c: nat, buffer: array<Byte>, size: nat, read: nat) returns (read': nat)
      requires Placed() && c >= 2 && bpb.ClusterSector(c) + bpb.sectorsPerCluster <= |disk| && size <= buffer.Length
      requires read < size || (read == 0 && size == 0)
      modifies buffer
      ensures read' == if read + bpb.ClusterSize() < size then read + bpb.ClusterSize() else size
      ensures read' - read <= bpb.ClusterSize()
      ensures buffer[..] == Patched(old(buffer[..]), read, RawCluster(disk, bpb, c)[..read' - read])
    {
      hide Span, Patched;
      ghost var bytes, was := RawCluster(disk, bpb, c), buffer[..];
      var sector := dataSector + (c - 2) * bpb.sectorsPerCluster;
      assert bytes == Span(disk, sector, bpb.sectorsPerCluster);
      read' := read;
      var j := 0;
      PatchedNothing(was, read);
      assert bytes[..0] == [];
      while j < bpb.sectorsPerCluster
        invariant 0 <= j <= bpb.sectorsPerCluster && read' == read + 512 * j <= size
        invariant j > 0 ==> read' < size
        invariant buffer[..] == Patched(was, read, bytes[..512 * j])
      {
        var temp := ReadSector(sector + j);
        var n := size - read';
        if n > 512 { n := 512; }
        CopySector(buffer, read', temp, n);
        SpanSlice(disk, sector, bpb.sectorsPerCluster, j, n);
        PatchedTwice(was, read, bytes, 512 * j, 512 * j + n);
        read' := read' + n;
        if read' >= size { break; }
        j := j + 1;
      }
    }

    /** The read loop. It ends on every table, cyclic ones included, because the count of bytes read
        grows; what it delivers is what following the links yields. */
    method ReadChain(first: nat, size: nat, buffer: array<Byte>)
      requires Placed() && ReadOnDisk(disk, bpb, first, size) && size <= buffer.Length
      modifies buffer
      ensures buffer[..] == Patched(old(buffer[..]), 0, RawWalk(disk, bpb, first, size))
    {
      hide Patched, RawWalk, ReadOnDisk, RawCluster, Word;
      ghost var cb, was, got := bpb.ClusterSize(), buffer[..], [];
      var c, read := first, 0;
      PatchedNothing(was, 0);
      while Followed(c)
        invariant read < size || (read == 0 && size == 0)
        invariant ReadOnDisk(disk, bpb, c, size - read)
        invariant |got| == read && got + RawWalk(disk, bpb, c, size - read) == RawWalk(disk, bpb, first, size)
        invariant buffer[..] == Patched(was, 0, got)
        decreases size - read
      {
        RawStep(disk, bpb, c, size - read);
        ghost var bytes := RawCluster(disk, bpb, c);
        ghost var step := if size - read <= cb then bytes[..size - read] else bytes;
        PatchedMore(was, got, step);
        ghost var read0 := read;
        read := ReadCluster(c, buffer, size, read);
        assert bytes[..read - read0] == step;
        got := got + step;
        if read >= size { return; }
        c := LoadEntry(c);
      }
      RawEnd(disk, bpb, c, size - read);
      assert got + [] == got;
    }

    /** On a volume it delivers what the walk along the links yields. */
    method ReadOwned(first: nat, size: nat, buffer: array<Byte>)
      requires Mounted() && Shaped(V(), bpb.ClusterSize()) && size <= buffer.Length
      requires ReadsExist(V(), bpb.ClusterSize(), first, size)
      modifies buffer
      ensures buffer[..] == Patched(old(buffer[..]), 0, Walk(V(), bpb.ClusterSize(), first, size))
    {
      hide FatOf, RootOf, DataOf, Mirrored, Patched, Walk, ReadsExist, RawWalk, ReadOnDisk, Shaped;
      RawWalkInVolume(disk, bpb, first, size);
      ReadChain(first, size, buffer);
    }

    // ----- directory entries

    /** Sets name, extension, attribute, first cluster and size of the entry at offset o of a sector. */
    method PatchEntry(s: Sector, o: nat, n: Name, first: nat, size: nat) returns (t: Sector)
      requires o + 32 <= 512 && first < 0x1_0000 && size < 0x1_0000_0000
      ensures t == Spliced(s, o, Filled(s[o..o + 32], n, first, size))
    {
      t := s;
      var j := 0;
      while j < 8
        invariant 0 <= j <= 8
        invariant forall i :: 0 <= i < 512 ==> t[i] == if o <= i < o + j then n[i - o] else s[i]
      {
        t := t[o + j := n[j]];
        j := j + 1;
      }
      j := 0;
      while j < 3
        invariant 0 <= j <= 3
        invariant forall i :: 0 <= i < 512 ==> t[i] == if o <= i < o + 8 + j then n[i - o] else s[i]
      {
        t := t[o + 8 + j := n[8 + j]];
        j := j + 1;
      }
      t := t[o + 11 := 0x20];
      t := Put16(t, o + 26, first);
      t := Put32(t, o + 28, size);
      forall i | 0 <= i < 512 ensures t[i] == Spliced(s, o, Filled(s[o..o + 32], n, first, size))[i] {
      }
    }

    method WriteRootSector(sec: nat, i: nat, s: Sector, ghost slot: Slot)
      requires Mounted() && sec < rootDirSize && i < 16 && rootDirSector + sec < |disk|
      requires s == Spliced(disk[rootDirSector + sec], 32 * i, slot)
      modifies this`disk
      ensures Mounted() && OutsideKept(old(disk), disk, bpb) && 16 * sec + i < |old(V()).root|
      ensures V() == old(V().(root := V().root[16 * sec + i := slot]))
    {
      hide FatOf, RootOf, DataOf, Spliced;
      TablesFit(disk, bpb);
      VolumeShaped(disk, bpb);
      ghost var d := disk;
      WriteSector(rootDirSector + sec, s);
      SlotWritten(d, disk, bpb, 16 * sec + i, slot);
    }

    method UpdateEntry(sec: nat, i: nat, n: Name, first: nat, size: nat)
      requires Mounted() && sec < rootDirSize && i < 16 && first < 0x1_0000 && size < 0x1_0000_0000
      modifies this`disk
      ensures Mounted() && OutsideKept(old(disk), disk, bpb) && 16 * sec + i < |old(V()).root|
      ensures V() == old(V().(root := V().root[16 * sec + i := Filled(V().root[16 * sec + i], n, first, size)]))
    {
      hide FatOf, RootOf, DataOf, Mirrored, Spliced, Filled;
      var rootSec := ReadRootSector(sec);
      assert SlotIn(sec, i, rootSec);
      ghost var slot := V().root[16 * sec + i];
      rootSec := PatchEntry(rootSec, 32 * i, n, first, size);
      WriteRootSector(sec, i, rootSec, Filled(slot, n, first, size));
    }

    // ----- the four file operations

    method GetFileSize(filename: CString) returns (r: nat)
      requires Valid()
      ensures var n, m := FatName(filename), Contents(); r == if n in m then |m[n]| else 0
    {
      hide FatOf, RootOf, DataOf, Mirrored, Walk, Files, FatName;
      VolumeShaped(disk, bpb);
      var n := FormatName(filename);
      var found, sec, i := FindFile(n);
      FilesNamed(V(), bpb.ClusterSize());
      if !found { return 0; }
      var rootSec := ReadRootSector(sec);
      assert SlotIn(sec, i, rootSec);
      FileFound(V(), bpb.ClusterSize(), 16 * sec + i);
      ContentLength(V(), bpb.ClusterSize(), chains, 16 * sec + i);
      r := Le32(rootSec[32 * i..32 * i + 32], 28);
    }

    method ReadFile(filename: CString, buffer: array<Byte>) returns (r: int)
      requires Valid()
      requires FatName(filename) in Contents() ==> |Contents()[FatName(filename)]| <= buffer.Length
      modifies buffer
      ensures var n, m := FatName(filename), Contents();
        if n in m then
          && |m[n]| < 0x1_0000_0000 && r == AsInt(|m[n]|) && buffer[..] == Patched(old(buffer[..]), 0, m[n])
          && buffer[..|m[n]|] == m[n] && buffer[|m[n]|..] == old(buffer[|m[n]|..])
        else r == 0 && buffer[..] == old(buffer[..])
    {
      hide FatOf, RootOf, DataOf, Mirrored, Walk, Files, FatName, Patched, OwnsBut, DirectoryOk, Shaped, ReadsExist, Bpb.Sound;
      VolumeShaped(disk, bpb);
      var n := FormatName(filename);
      var found, sec, i := FindFile(n);
      FilesNamed(V(), bpb.ClusterSize());
      if !found { return 0; }
      var rootSec := ReadRootSector(sec);
      assert SlotIn(sec, i, rootSec);
      ghost var k := 16 * sec + i;
      FileFound(V(), bpb.ClusterSize(), k);
      ContentLength(V(), bpb.ClusterSize(), chains, k);
      var slot: Slot := rootSec[32 * i..32 * i + 32];
      FileReadsExist(V(), bpb.ClusterSize(), chains, k);
      ghost var before := buffer[..];
      ReadOwned(FirstCluster(slot), FileSize(slot), buffer);
      PatchedStart(before, Contents()[n]);
      r := AsInt(FileSize(slot));
    }

    /** Frees the clusters of slot i of a root sector and marks the slot 0xE5. */
    method RemoveEntry(sec: nat, i: nat, s: Sector)
      requires Valid() && sec < rootDirSize && i < 16
      requires rootDirSector + sec < |disk| && s == disk[rootDirSector + sec] && SlotIn(sec, i, s)
      requires Named(V().root[16 * sec + i])
      modifies this`disk
      ensures Mounted() && OutsideKept(old(disk), disk, bpb) && 16 * sec + i < |old(V()).root|
      ensures V() == old(V().(fat := Freed(V().fat, FirstCluster(V().root[16 * sec + i])),
                              root := V().root[16 * sec + i := V().root[16 * sec + i][0 := 0xE5]]))
    {
      hide FatOf, RootOf, DataOf, Mirrored, Spliced, Freed, Shaped, SlotOwns, Disjoint, StaysInTable, DirectoryOk;
      ghost var d0, v, k := disk, V(), 16 * sec + i;
      var slot: Slot := s[32 * i..32 * i + 32];
      OwnedStays(v, bpb.ClusterSize(), chains, k);
      FreeOwned(FirstCluster(slot));
      RootDetermined(d0, disk, bpb);
      TablesFit(d0, bpb);
      SlotPatched(s, 32 * i, slot, 0xE5);
      ghost var d1 := disk;
      WriteRootSector(sec, i, s[32 * i := 0xE5], slot[0 := 0xE5]);
      OutsideKeptTwice(d0, d1, disk, bpb);
    }

    method DeleteFile(filename: CString) returns (r: int)
      requires Valid()
      modifies this`disk, this`chains
      ensures Valid() && OutsideKept(old(disk), disk, bpb)
      ensures LostClusters(V(), chains) == old(LostClusters(V(), chains))
      ensures FatName(filename) in old(Contents()) ==> r == 1 && (exists k | 0 <= k < |old(chains)| ::
        FileAt(old(V()).root, FatName(filename), k) && chains == old(chains)[k := []]
        && |FreeClusters(V())| == |old(FreeClusters(V()))| + |old(chains)[k]|)
      ensures Contents() == old(Contents()) - {FatName(filename)}
      ensures FatName(filename) !in old(Contents()) ==> r == 0 && disk == old(disk) && chains == old(chains)
    {
      hide FatOf, RootOf, DataOf, Mirrored, Walk, Files, FatName, Freed, FreeClusters, LostClusters, SlotOwns, Disjoint,
        DirectoryOk, Shaped;
      VolumeShaped(disk, bpb);
      OutsideKeptTwice(disk, disk, disk, bpb);
      var n := FormatName(filename);
      var found, sec, i := FindFile(n);
      ghost var v, k := V(), 16 * sec + i;
      FilesNamed(v, bpb.ClusterSize());
      if !found { return 0; }
      var rootSec := ReadRootSector(sec);
      assert SlotIn(sec, i, rootSec);
      RemoveEntry(sec, i, rootSec);
      DeleteCompleted(v, V(), bpb.ClusterSize(), chains, k);
      chains := chains[k := []];
      r := 1;
    }

    /** Frees the clusters of the entry a write replaces. */
    method ReleaseEntry(sec: nat, i: nat, n: Name)
      requires Valid() && sec < rootDirSize && i < 16 && HasName(V().root, n) && TargetAt(V().root, n, 16 * sec + i)
      modifies this`disk
      ensures Mounted() && OutsideKept(old(disk), disk, bpb)
      ensures V() == Released(old(V()), n)
    {
      hide FatOf, RootOf, DataOf, Mirrored, Freed, Shaped, SlotOwns, Disjoint, StaysInTable, OutsideKept;
      var rootSec := ReadRootSector(sec);
      assert SlotIn(sec, i, rootSec);
      MatchUnique(V().root, n, 16 * sec + i);
      OwnedStays(V(), bpb.ClusterSize(), chains, 16 * sec + i);
      FreeOwned(FirstCluster(rootSec[32 * i..32 * i + 32]));
    }

    /** The last step of a write: the entry now names the finished chain. */
    method FinishWrite(sec: nat, i: nat, n: Name, first: nat, bytes: seq<Byte>,
                       ghost v: Volume, ghost cs: seq<nat>)
      requires Mounted() && sec < rootDirSize && i < 16 && |bytes| < 0x1_0000_0000
      requires Owns(v, bpb.ClusterSize(), chains) && DirectoryOk(v.root) && TargetAt(v.root, n, 16 * sec + i)
      requires Building(Released(v, n), V(), bpb.ClusterSize(), bytes, cs)
      requires cs != [] && cs[0] == first && Fits(|bytes|, |cs|, bpb.ClusterSize())
      modifies this`disk, this`chains
      ensures Valid() && OutsideKept(old(disk), disk, bpb)
      ensures n[0] == 0xE5 ==> Contents() == Files(v, bpb.ClusterSize())
      ensures n[0] == 0xE5 ==> chains == old(chains) && Orphaned(v, V(), chains, cs)
      ensures n[0] != 0xE5 ==> Contents() == Files(v, bpb.ClusterSize())[n := bytes]
      ensures n[0] != 0xE5 ==> ChainReplaced(v, old(chains), V(), chains, bpb.ClusterSize(), |bytes|)
    {
      hide FatOf, RootOf, DataOf, Mirrored, Freed, Filled, DirectoryOk, OutsideKept, Files, ChainReplaced, FilledUp, LinkedUp,
        SlotOwns, Disjoint, Shaped, Fits, HasName, Orphaned;
      ghost var v1, k, cb := V(), 16 * sec + i, bpb.ClusterSize();
      BuildingFirst(Released(v, n), v1, cb, bytes, cs);
      UpdateEntry(sec, i, n, first, |bytes|);
      if n[0] == 0xE5 {
        WriteHidden(v, v1, V(), cb, chains, n, k, bytes, cs);
      } else {
        WriteCompleted(v, v1, V(), cb, chains, n, k, bytes, cs);
        WriteReplaced(v, chains, V(), k, cs, cb, |bytes|);
        chains := chains[k := cs];
      }
    }

    /** fat16_write_file. What it does depends on the name, on whether there is a slot for it, and on
        whether the free clusters suffice once the old content's are released. */
    method WriteFile(filename: CString, bytes: seq<Byte>) returns (r: int)
      requires Valid() && |bytes| < 0x1_0000_0000
      modifies this`disk, this`chains
      ensures Mounted() && OutsideKept(old(disk), disk, bpb)
      ensures CanStore(old(V()), bpb.ClusterSize(), FatName(filename), |bytes|) ==>
        && r == AsInt(|bytes|) && Valid()
        && (FatName(filename)[0] == 0xE5 ==>
              && Contents() == old(Contents()) && chains == old(chains)
              && ChainOrphaned(old(V()), V(), chains, bpb.ClusterSize(), |bytes|))
        && (FatName(filename)[0] != 0xE5 ==>
              && Contents() == old(Contents())[FatName(filename) := bytes]
              && ChainReplaced(old(V()), old(chains), V(), chains, bpb.ClusterSize(), |bytes|))
      ensures !CanStore(old(V()), bpb.ClusterSize(), FatName(filename), |bytes|) ==>
        && r == 0 && chains == old(chains) && UsedKept(Released(old(V()), FatName(filename)), V())
        && (!Occupied(old(V()), FatName(filename)) ==>
              Valid() && Contents() == old(Contents()) && MetadataKept(old(disk), disk, bpb))
    {
      hide FatOf, RootOf, DataOf, Mirrored, FatName, Freed, OwnsBut, DirectoryOk, OutsideKept, UsedKept, HasRoom,
        Room, Building, Files, ChainReplaced, MetadataKept, TargetAt, Fits, Bpb.Sound, Released, HasName, Occupied, Shaped, Orphaned, ChainOrphaned;
      VolumeShaped(disk, bpb);
      ghost var v, d0, cb := V(), disk, bpb.ClusterSize();
      OutsideKeptTwice(d0, d0, d0, bpb);
      var n := FormatName(filename);
      var matched, sec, idx := FindTarget(n);
      if matched {
        ReleaseEntry(sec, idx, n);
      } else {
        NothingReleased(v, n);
      }
      ghost var d1 := disk;
      if idx == -1 {
        NothingUsed(v);
        WriteRefused(d0, disk, bpb, chains, n);
        return 0;
      }
      TargetExists(v.root, n, 16 * sec + idx);
      var first;
      ghost var cs;
      first, cs := WriteChain(bytes);
      ghost var d2 := disk;
      OutsideKeptTwice(d0, d1, d2, bpb);
      VolumeShaped(disk, bpb);
      if first == 0 {
        WriteRefused(d0, disk, bpb, chains, n);
        return 0;
      }
      FinishWrite(sec, idx, n, first, bytes, v, cs);
      if n[0] == 0xE5 {
        WriteOrphaned(v, V(), chains, cs, cb, |bytes|);
      }
      OutsideKeptTwice(d0, d2, disk, bpb);
      r := AsInt(|bytes|);
    }
  }

  /** One slot's chain has been replaced by one of the right length for `size` bytes, the free count
      has changed by the two lengths, and no cluster has been lost. */
  ghost predicate ChainReplaced(v: Volume, chains: seq<seq<nat>>, w: Volume, chains': seq<seq<nat>>, cb: nat, size: nat) {
    && LostClusters(w, chains') == LostClusters(v, chains)
    && |chains'| == |chains|
    && exists k | 0 <= k < |chains| ::
         && chains' == chains[k := chains'[k]] && Fits(size, |chains'[k]|, cb)
         && |FreeClusters(w)| + |chains'[k]| == |FreeClusters(v)| + |chains[k]|
  }

  /** As many clusters as `size` bytes take, at least one, were free and now belong to no slot. */
  ghost predicate ChainOrphaned(v: Volume, w: Volume, chains: seq<seq<nat>>, cb: nat, size: nat) {
    exists cs :: Orphaned(v, w, chains, cs) && cs != [] && Fits(size, |cs|, cb)
  }

  lemma WriteOrphaned(v: Volume, w: Volume, chains: seq<seq<nat>>, cs: seq<nat>, cb: nat, size: nat)
    requires Orphaned(v, w, chains, cs) && cs != [] && Fits(size, |cs|, cb)
    ensures ChainOrphaned(v, w, chains, cb, size)
  {
    hide Orphaned;
  }

  lemma WriteReplaced(v: Volume, chains: seq<seq<nat>>, w: Volume, k: nat, cs: seq<nat>, cb: nat, size: nat)
    requires k < |chains| && LostClusters(w, chains[k := cs]) == LostClusters(v, chains) && Fits(size, |cs|, cb)
    requires |FreeClusters(w)| == |FreeClusters(v)| + |chains[k]| - |cs|
    ensures ChainReplaced(v, chains, w, chains[k := cs], cb, size)
  {
    var chains' := chains[k := cs];
    assert chains' == chains[k := chains'[k]];
  }

  /** Both copies of the table and the root directory are, sector for sector, what they were. */
  ghost predicate MetadataKept(d: seq<Sector>, e: seq<Sector>, b: Bpb) {
    && SameOn(d, e, b.reservedSectors, b.reservedSectors + b.tableSize)
    && (b.tables > 1 ==> SameOn(d, e, b.reservedSectors + b.tableSize, b.reservedSectors + 2 * b.tableSize))
    && SameOn(d, e, b.RootDirSector(), b.DataSector())
  }

  lemma MetadataDetermined(d: seq<Sector>, e: seq<Sector>, b: Bpb)
    requires b.Sound(|d|) && |d| == |e| && Mirrored(d, b) && Mirrored(e, b)
    requires FatOf(d, b) == FatOf(e, b) && RootOf(d, b) == RootOf(e, b)
    ensures MetadataKept(d, e, b)
  {
    hide FatOf, RootOf;
    TablesFit(d, b);
    TableDetermined(d, e, b);
    RootDetermined(d, e, b);
    if b.tables > 1 {
      forall s | b.reservedSectors + b.tableSize <= s < b.reservedSectors + 2 * b.tableSize ensures d[s] == e[s] {
        assert d[s - b.tableSize] == e[s - b.tableSize];
        assert d[s - b.tableSize + b.tableSize] == d[s - b.tableSize];
        assert e[s - b.tableSize + b.tableSize] == e[s - b.tableSize];
      }
    }
  }

  /** A refused write, unless an entry of that name has given up its clusters: everything is as it was but for unused clusters. */
  lemma WriteRefused(d: seq<Sector>, e: seq<Sector>, b: Bpb, chains: seq<seq<nat>>, n: Name)
    requires b.Sound(|d|) && |d| == |e| && Mirrored(d, b) && Mirrored(e, b)
    requires Owns(VolumeOf(d, b), b.ClusterSize(), chains) && DirectoryOk(VolumeOf(d, b).root)
    requires UsedKept(Released(VolumeOf(d, b), n), VolumeOf(e, b)) && Shaped(VolumeOf(e, b), b.ClusterSize())
    ensures !Occupied(VolumeOf(d, b), n) ==>
      && Owns(VolumeOf(e, b), b.ClusterSize(), chains) && DirectoryOk(VolumeOf(e, b).root)
      && Files(VolumeOf(e, b), b.ClusterSize()) == Files(VolumeOf(d, b), b.ClusterSize())
      && MetadataKept(d, e, b)
  {
    hide FatOf, RootOf, DataOf, Mirrored, Owns, DirectoryOk, Shaped, Files, MetadataKept, Freed;
    WriteFailed(VolumeOf(d, b), VolumeOf(e, b), b.ClusterSize(), chains, n);
    if !Occupied(VolumeOf(d, b), n) {
      MetadataDetermined(d, e, b);
    }
  }

  lemma FileReadsExist(v: Volume, cb: nat, chains: seq<seq<nat>>, k: nat)
    requires Owns(v, cb, chains) && k < |v.root| && IsFile(v.root[k])
    ensures Shaped(v, cb) && ReadsExist(v, cb, FirstCluster(v.root[k]), FileSize(v.root[k]))
  {
    assert SlotOwns(v, cb, v.root[k], chains[k]);
    ChainReadsExist(v, cb, FirstCluster(v.root[k]), chains[k], FileSize(v.root[k]));
  }

  lemma SlotPatched(s: Sector, o: nat, slot: Slot, x: Byte)
    requires o + 32 <= 512 && s[o..o + 32] == slot
    ensures s[o := x] == Spliced(s, o, slot[0 := x])
  {
  }

  /** b with t laid over it from index `at`. */
  function Patched(b: seq<Byte>, at: nat, t: seq<Byte>): (p: seq<Byte>)
    requires at + |t| <= |b|
    ensures |p| == |b|
  {
    b[..at] + t + b[at + |t|..]
  }

  lemma PatchedNothing(b: seq<Byte>, at: nat)
    requires at <= |b|
    ensures Patched(b, at, []) == b
  {
  }

  lemma PatchedStart(b: seq<Byte>, t: seq<Byte>)
    requires |t| <= |b|
    ensures Patched(b, 0, t)[..|t|] == t && Patched(b, 0, t)[|t|..] == b[|t|..]
  {
  }

  lemma PatchedMore(b: seq<Byte>, s: seq<Byte>, t: seq<Byte>)
    requires |s| + |t| <= |b|
    ensures Patched(Patched(b, 0, s), |s|, t) == Patched(b, 0, s + t)
  {
  }

  lemma PatchedTwice(b: seq<Byte>, at: nat, t: seq<Byte>, i: nat, j: nat)
    requires i <= j <= |t| && at + j <= |b|
    ensures Patched(Patched(b, at, t[..i]), at + i, t[i..j]) == Patched(b, at, t[..j])
  {
  }

  /** What the write search knows after k slots. */
  ghost predicate Searched(root: seq<Slot>, n: Name, k: nat, sec: nat, idx: int) {
    && k <= |root|
    && (forall j :: 0 <= j < k ==> !NamedAt(root, n, j))
    && (if idx == -1 then forall j :: 0 <= j < k ==> Live(root[j]) else
          && 0 <= idx < 16 && 16 * sec + idx < k && !Live(root[16 * sec + idx])
          && forall j :: 0 <= j < 16 * sec + idx ==> Live(root[j]))
  }

  /** A uint32_t as an int: the number itself or 2^32 less, whichever an int can be. */
  lemma AsIntWraps(x: nat)
    requires x < 0x1_0000_0000
    ensures -0x8000_0000 <= AsInt(x) < 0x8000_0000 && (AsInt(x) - x) % 0x1_0000_0000 == 0
  {
  }
}
