/** Where a FAT16 volume keeps its parts on the disk, and the volume (allocation table, root
    directory, cluster contents) that a disk image represents. */
module Fat16Layout {
  import opened Bytes

  type Sector = s: seq<Byte> | |s| == 512 witness seq(512, _ => 0)
  type Slot = s: seq<Byte> | |s| == 32 witness seq(32, _ => 0)

  /** The BIOS parameter block fields the driver uses. */
  datatype Bpb = Bpb(
    bytesPerSector: nat, sectorsPerCluster: nat, reservedSectors: nat, tables: nat,
    rootEntries: nat, totalSectors16: nat, tableSize: nat, totalSectors32: nat)
  {
    function RootDirSector(): nat { reservedSectors + tables * tableSize }

    function RootDirSize(): nat { rootEntries * 32 / 512 }

    function DataSector(): nat { RootDirSector() + RootDirSize() }

    function TotalSectors(): nat { if totalSectors16 == 0 then totalSectors32 else totalSectors16 }

    /** total_clusters as the allocator computes it (exact where Sound holds). */
    function TotalClusters(): int
      requires bytesPerSector == 512 && sectorsPerCluster >= 1
    {
      (TotalSectors() - (reservedSectors + tables * tableSize + (rootEntries * 32 + 511) / 512)) / sectorsPerCluster
    }

    function TableEntries(): nat { 256 * tableSize }

    function ClusterSize(): nat { 512 * sectorsPerCluster }

    /** First sector of cluster c. */
    function ClusterSector(c: nat): nat
      requires c >= 2
    {
      DataSector() + (c - 2) * sectorsPerCluster
    }

    /** The volumes the driver is written for, on a disk of n sectors. */
    ghost predicate Sound(n: nat) {
      && bytesPerSector == 512 && 1 <= sectorsPerCluster
      && reservedSectors >= 1 && tables >= 1 && rootEntries % 16 == 0
      && reservedSectors + tables * tableSize + (rootEntries * 32 + 511) / 512 <= TotalSectors() <= n
      && TotalClusters() + 2 <= TableEntries()
    }
  }

  function ParseBpb(s: Sector): Bpb {
    Bpb(Le16(s, 11), s[13], Le16(s, 14), s[16], Le16(s, 17), Le16(s, 19), Le16(s, 22), Le32(s, 32))
  }

  /** A volume, free of sectors: entry c of the table, slot k of the root directory, and the bytes
      of data cluster c (clusters 0 and 1 do not exist and hold nothing). */
  datatype Volume = Volume(fat: seq<nat>, root: seq<Slot>, data: seq<seq<Byte>>)

  ghost function FatOf(d: seq<Sector>, b: Bpb): (fat: seq<nat>)
    requires b.Sound(|d|)
  {
    TablesFit(d, b);
    seq(b.TableEntries(), c requires 0 <= c < b.TableEntries() => Le16(d[b.reservedSectors + c / 256], 2 * (c % 256)))
  }

  lemma TablesFit(d: seq<Sector>, b: Bpb)
    requires b.Sound(|d|)
    ensures b.tableSize <= b.tables * b.tableSize
    ensures b.tables > 1 ==> 2 * b.tableSize <= b.tables * b.tableSize
    ensures b.DataSector() <= |d|
    ensures b.RootDirSize() == b.rootEntries / 16 && 16 * b.RootDirSize() == b.rootEntries
    ensures b.TotalClusters() >= 0
    ensures b.DataSector() + b.TotalClusters() * b.sectorsPerCluster <= b.TotalSectors()
  {
    var rest := b.TotalSectors() - (b.reservedSectors + b.tables * b.tableSize + (b.rootEntries * 32 + 511) / 512);
    assert (rest / b.sectorsPerCluster) * b.sectorsPerCluster <= rest;
  }

  ghost function SlotOf(d: seq<Sector>, b: Bpb, k: nat): Slot
    requires b.Sound(|d|) && k < b.rootEntries
  {
    TablesFit(d, b);
    d[b.RootDirSector() + k / 16][32 * (k % 16)..32 * (k % 16) + 32]
  }

  ghost function RootOf(d: seq<Sector>, b: Bpb): (root: seq<Slot>)
    requires b.Sound(|d|)
  {
    seq(b.rootEntries, k requires 0 <= k < b.rootEntries => SlotOf(d, b, k))
  }

  lemma SlotIs(d: seq<Sector>, b: Bpb, sec: nat, i: nat)
    requires b.Sound(|d|) && 16 * sec + i < b.rootEntries && i < 16
    ensures b.RootDirSector() + sec < |d|
    ensures RootOf(d, b)[16 * sec + i] == SlotOf(d, b, 16 * sec + i) == d[b.RootDirSector() + sec][32 * i..32 * i + 32]
  {
    hide Bpb.TotalClusters, Bpb.TotalSectors;
    TablesFit(d, b);
    SectorOfSlot(sec, i);
  }

  lemma SectorOfSlot(sec: nat, i: nat)
    requires i < 16
    ensures (16 * sec + i) / 16 == sec && (16 * sec + i) % 16 == i
  {
  }

  /** The bytes of n consecutive sectors. */
  ghost function Span(d: seq<Sector>, first: nat, n: nat): (s: seq<Byte>)
    requires first + n <= |d|
    ensures |s| == 512 * n
  {
    if n == 0 then [] else Span(d, first, n - 1) + d[first + n - 1]
  }

  lemma MultiplesApart(a: nat, b: nat, k: nat)
    requires a < b
    ensures a * k + k <= b * k
  {
    var n := b - a - 1;
    assert n * k >= 0;
    assert (a + 1 + n) * k == a * k + k + n * k;
  }

  lemma ClusterFits(d: seq<Sector>, b: Bpb, c: nat)
    requires b.Sound(|d|) && 2 <= c < b.TotalClusters() + 2
    ensures b.DataSector() <= b.ClusterSector(c) <= b.ClusterSector(c) + b.sectorsPerCluster <= b.TotalSectors()
  {
    TablesFit(d, b);
    MultiplesApart(c - 2, b.TotalClusters(), b.sectorsPerCluster);
  }

  ghost function ClusterOf(d: seq<Sector>, b: Bpb, c: nat): (s: seq<Byte>)
    requires b.Sound(|d|) && 2 <= c < b.TotalClusters() + 2
    ensures |s| == b.ClusterSize()
  {
    ClusterFits(d, b, c);
    Span(d, b.ClusterSector(c), b.sectorsPerCluster)
  }

  lemma ClusterIsSpan(d: seq<Sector>, b: Bpb, c: nat)
    requires b.Sound(|d|) && 2 <= c < b.TotalClusters() + 2
    ensures b.ClusterSector(c) + b.sectorsPerCluster <= |d|
    ensures ClusterOf(d, b, c) == Span(d, b.ClusterSector(c), b.sectorsPerCluster)
  {
    ClusterFits(d, b, c);
  }

  ghost function DataOf(d: seq<Sector>, b: Bpb): (data: seq<seq<Byte>>)
    requires b.Sound(|d|)
  {
    TablesFit(d, b);
    seq(b.TotalClusters() + 2, c requires 0 <= c < b.TotalClusters() + 2 => if c < 2 then [] else ClusterOf(d, b, c))
  }

  ghost function VolumeOf(d: seq<Sector>, b: Bpb): (v: Volume)
    requires b.Sound(|d|)
  {
    Volume(FatOf(d, b), RootOf(d, b), DataOf(d, b))
  }

  /** The second copy of the table, where there is one, equals the first. */
  ghost predicate Mirrored(d: seq<Sector>, b: Bpb)
    requires b.Sound(|d|)
  {
    TablesFit(d, b);
    b.tables > 1 ==> forall s :: b.reservedSectors <= s < b.reservedSectors + b.tableSize ==> d[s + b.tableSize] == d[s]
  }

  // ----- effect of a sector write on each part of the volume

  ghost predicate SameOn(d: seq<Sector>, e: seq<Sector>, lo: nat, hi: nat) {
    |d| == |e| && hi <= |d| && forall s :: lo <= s < hi ==> d[s] == e[s]
  }

  lemma SpanNext(d: seq<Sector>, first: nat, n: nat)
    requires first + n < |d|
    ensures Span(d, first, n + 1) == Span(d, first, n) + d[first + n]
  {
  }

  lemma {:induction false} SpanUnchanged(d: seq<Sector>, e: seq<Sector>, first: nat, n: nat)
    requires first + n <= |d| && SameOn(d, e, first, first + n)
    ensures Span(d, first, n) == Span(e, first, n)
  {
    if n > 0 {
      SpanUnchanged(d, e, first, n - 1);
    }
  }

  /** The j-th sector of a span, and the sectors before it. */
  lemma {:induction false} SpanPart(d: seq<Sector>, first: nat, n: nat, j: nat)
    requires first + n <= |d| && j < n
    ensures Span(d, first, n)[..512 * j] == Span(d, first, j)
    ensures Span(d, first, n)[512 * j..512 * j + 512] == d[first + j]
  {
    if j < n - 1 {
      SpanPart(d, first, n - 1, j);
    }
  }

  lemma SpanSlice(d: seq<Sector>, first: nat, n: nat, j: nat, m: nat)
    requires first + n <= |d| && j < n && m <= 512
    ensures Span(d, first, n)[512 * j..512 * j + m] == d[first + j][..m]
  {
    SpanPart(d, first, n, j);
    var s := Span(d, first, n);
    assert s[512 * j..512 * j + m] == s[512 * j..512 * j + 512][..m];
  }

  /** The table determines the sectors it is stored in. */
  lemma TableDetermined(d: seq<Sector>, e: seq<Sector>, b: Bpb)
    requires b.Sound(|d|) && |d| == |e| && FatOf(d, b) == FatOf(e, b)
    ensures SameOn(d, e, b.reservedSectors, b.reservedSectors + b.tableSize)
  {
    TablesFit(d, b);
    forall s | b.reservedSectors <= s < b.reservedSectors + b.tableSize ensures d[s] == e[s] {
      forall i | 0 <= i < 512 ensures d[s][i] == e[s][i] {
        var c := 256 * (s - b.reservedSectors) + i / 2;
        assert FatOf(d, b)[c] == Le16(d[s], 2 * (i / 2));
        assert FatOf(e, b)[c] == Le16(e[s], 2 * (i / 2));
        assert i == 2 * (i / 2) || i == 2 * (i / 2) + 1;
      }
    }
  }

  /** The root directory determines the sectors it is stored in. */
  lemma RootDetermined(d: seq<Sector>, e: seq<Sector>, b: Bpb)
    requires b.Sound(|d|) && |d| == |e| && RootOf(d, b) == RootOf(e, b)
    ensures SameOn(d, e, b.RootDirSector(), b.DataSector())
  {
    TablesFit(d, b);
    forall s | b.RootDirSector() <= s < b.DataSector() ensures d[s] == e[s] {
      forall i | 0 <= i < 512 ensures d[s][i] == e[s][i] {
        var k := 16 * (s - b.RootDirSector()) + i / 32;
        assert RootOf(d, b)[k] == SlotOf(d, b, k) && RootOf(e, b)[k] == SlotOf(e, b, k);
        assert SlotOf(d, b, k)[i % 32] == d[s][i] && SlotOf(e, b, k)[i % 32] == e[s][i];
      }
    }
  }

  lemma FatUnchanged(d: seq<Sector>, e: seq<Sector>, b: Bpb)
    requires b.Sound(|d|) && SameOn(d, e, b.reservedSectors, b.reservedSectors + b.tableSize)
    ensures FatOf(d, b) == FatOf(e, b)
  {
    TablesFit(d, b);
  }

  lemma RootUnchanged(d: seq<Sector>, e: seq<Sector>, b: Bpb)
    requires b.Sound(|d|) && SameOn(d, e, b.RootDirSector(), b.DataSector())
    ensures RootOf(d, b) == RootOf(e, b)
  {
    TablesFit(d, b);
  }

  lemma ClusterUnchanged(d: seq<Sector>, e: seq<Sector>, b: Bpb, c: nat)
    requires b.Sound(|d|) && 2 <= c < b.TotalClusters() + 2 && |d| == |e|
    requires forall s :: b.ClusterSector(c) <= s < b.ClusterSector(c) + b.sectorsPerCluster && s < |d| ==> d[s] == e[s]
    ensures ClusterOf(d, b, c) == ClusterOf(e, b, c)
  {
    ClusterFits(d, b, c);
    SpanUnchanged(d, e, b.ClusterSector(c), b.sectorsPerCluster);
  }

  lemma DataUnchanged(d: seq<Sector>, e: seq<Sector>, b: Bpb)
    requires b.Sound(|d|) && |d| == |e|
    requires SameOn(d, e, b.DataSector(), |d|)
    ensures DataOf(d, b) == DataOf(e, b)
  {
    TablesFit(d, b);
    forall c | 2 <= c < b.TotalClusters() + 2 ensures ClusterOf(d, b, c) == ClusterOf(e, b, c) {
      ClusterFits(d, b, c);
      ClusterUnchanged(d, e, b, c);
    }
  }

  /** Distinct clusters occupy disjoint sector ranges. */
  lemma ClustersApart(b: Bpb, c: nat, c': nat)
    requires 2 <= c < c'
    ensures b.ClusterSector(c) + b.sectorsPerCluster <= b.ClusterSector(c')
  {
    MultiplesApart(c - 2, c' - 2, b.sectorsPerCluster);
  }

  lemma DataUpdated(d: seq<Sector>, e: seq<Sector>, b: Bpb, c: nat)
    requires b.Sound(|d|) && 2 <= c < b.TotalClusters() + 2 && |d| == |e|
    requires forall s :: 0 <= s < |d| && !(b.ClusterSector(c) <= s < b.ClusterSector(c) + b.sectorsPerCluster) ==> d[s] == e[s]
    ensures DataOf(e, b) == DataOf(d, b)[c := ClusterOf(e, b, c)]
  {
    var data, data' := DataOf(d, b), DataOf(e, b);
    forall a | 2 <= a < b.TotalClusters() + 2 && a != c ensures data'[a] == data[a] {
      ClusterFits(d, b, a);
      if a < c { ClustersApart(b, a, c); } else { ClustersApart(b, c, a); }
      ClusterUnchanged(d, e, b, a);
    }
  }

  /** Writing only inside cluster c changes the volume in that cluster and nowhere else. */
  lemma ClusterWritten(d: seq<Sector>, e: seq<Sector>, b: Bpb, c: nat)
    requires b.Sound(|d|) && 2 <= c < b.TotalClusters() + 2 && |d| == |e|
    requires forall s :: 0 <= s < |d| && !(b.ClusterSector(c) <= s < b.ClusterSector(c) + b.sectorsPerCluster) ==> d[s] == e[s]
    ensures VolumeOf(e, b) == VolumeOf(d, b).(data := DataOf(d, b)[c := ClusterOf(e, b, c)])
    ensures Mirrored(d, b) ==> Mirrored(e, b)
    ensures forall s :: 0 <= s < |d| && (s < b.DataSector() || b.TotalSectors() <= s) ==> d[s] == e[s]
  {
    TablesFit(d, b);
    ClusterFits(d, b, c);
    assert SameOn(d, e, 0, b.DataSector());
    FatUnchanged(d, e, b);
    RootUnchanged(d, e, b);
    DataUpdated(d, e, b, c);
  }

  /** Where entry c of the table is. */
  function EntrySector(b: Bpb, c: nat): nat {
    b.reservedSectors + c / 256
  }

  /** The disk after a 16-bit store into a table sector, written to both copies of the table. */
  function WithEntry(d: seq<Sector>, b: Bpb, c: nat, value: nat): (e: seq<Sector>)
    requires EntrySector(b, c) < |d| && (b.tables > 1 ==> EntrySector(b, c) + b.tableSize < |d|) && value < 0x1_0000
    ensures |e| == |d|
  {
    var s := Put16(d[EntrySector(b, c)], 2 * (c % 256), value);
    if b.tables > 1 then d[EntrySector(b, c) := s][EntrySector(b, c) + b.tableSize := s] else d[EntrySector(b, c) := s]
  }

  lemma EntryFits(d: seq<Sector>, b: Bpb, c: nat)
    requires b.Sound(|d|) && c < b.TableEntries()
    ensures b.reservedSectors <= EntrySector(b, c) < b.reservedSectors + b.tableSize <= b.RootDirSector() <= |d|
    ensures b.tables > 1 ==> EntrySector(b, c) + b.tableSize < b.RootDirSector()
  {
    TablesFit(d, b);
  }

  lemma FatAt(d: seq<Sector>, b: Bpb, c: nat)
    requires b.Sound(|d|) && c < b.TableEntries()
    ensures EntrySector(b, c) < |d| && |FatOf(d, b)| == b.TableEntries()
    ensures FatOf(d, b)[c] == Le16(d[EntrySector(b, c)], 2 * (c % 256))
  {
    EntryFits(d, b, c);
  }

  lemma FatUpdated(d: seq<Sector>, e: seq<Sector>, b: Bpb, c: nat, value: nat)
    requires b.Sound(|d|) && c < b.TableEntries() && value < 0x1_0000 && |d| == |e|
    requires EntrySector(b, c) < |d|
    requires forall s :: b.reservedSectors <= s < b.reservedSectors + b.tableSize && s < |d| && s != EntrySector(b, c) ==> e[s] == d[s]
    requires e[EntrySector(b, c)] == Put16(d[EntrySector(b, c)], 2 * (c % 256), value)
    ensures FatOf(e, b) == FatOf(d, b)[c := value]
  {
    TablesFit(d, b);
    var fat, fat' := FatOf(d, b), FatOf(e, b);
    forall a | 0 <= a < b.TableEntries() ensures fat'[a] == fat[c := value][a] {
      if a / 256 == c / 256 {
        assert a != c ==> a % 256 != c % 256;
      }
    }
  }

  /** Such a store is a pointwise update of the table, keeps the copies equal, and touches no other
      part of the volume. */
  lemma EntryWritten(d: seq<Sector>, b: Bpb, c: nat, value: nat)
    requires b.Sound(|d|) && c < b.TableEntries() && value < 0x1_0000
    requires EntrySector(b, c) < |d| && (b.tables > 1 ==> EntrySector(b, c) + b.tableSize < |d|)
    ensures VolumeOf(WithEntry(d, b, c, value), b) == VolumeOf(d, b).(fat := FatOf(d, b)[c := value])
    ensures Mirrored(d, b) ==> Mirrored(WithEntry(d, b, c, value), b)
  {
    hide Put16;
    var e := WithEntry(d, b, c, value);
    TablesFit(d, b);
    EntryFits(d, b, c);
    FatUpdated(d, e, b, c, value);
    RootUnchanged(d, e, b);
    DataUnchanged(d, e, b);
  }

  lemma SlotAfter(d: seq<Sector>, e: seq<Sector>, b: Bpb, k: nat, slot: Slot, a: nat)
    requires b.Sound(|d|) && k < b.rootEntries && a < b.rootEntries && |d| == |e|
    requires forall s :: 0 <= s < |d| && s != b.RootDirSector() + k / 16 ==> d[s] == e[s]
    requires b.RootDirSector() + k / 16 < |d|
    requires e[b.RootDirSector() + k / 16] == Spliced(d[b.RootDirSector() + k / 16], 32 * (k % 16), slot)
    ensures SlotOf(e, b, a) == if a == k then slot else SlotOf(d, b, a)
  {
    hide Spliced;
    TablesFit(d, b);
    if a / 16 == k / 16 {
      SlotSpliced(d[b.RootDirSector() + k / 16], 32 * (k % 16), slot, 32 * (a % 16));
      assert a != k ==> a % 16 != k % 16;
    }
  }

  lemma RootUpdated(d: seq<Sector>, e: seq<Sector>, b: Bpb, k: nat, slot: Slot)
    requires b.Sound(|d|) && k < b.rootEntries && |d| == |e|
    requires forall s :: 0 <= s < |d| && s != b.RootDirSector() + k / 16 ==> d[s] == e[s]
    requires b.RootDirSector() + k / 16 < |d|
    requires e[b.RootDirSector() + k / 16] == Spliced(d[b.RootDirSector() + k / 16], 32 * (k % 16), slot)
    ensures RootOf(e, b) == RootOf(d, b)[k := slot]
  {
    hide Spliced, SlotOf;
    forall a | 0 <= a < b.rootEntries ensures SlotOf(e, b, a) == if a == k then slot else SlotOf(d, b, a) {
      SlotAfter(d, e, b, k, slot, a);
    }
  }

  /** Rewriting one root-directory sector so that only slot k changes. */
  lemma SlotWritten(d: seq<Sector>, e: seq<Sector>, b: Bpb, k: nat, slot: Slot)
    requires b.Sound(|d|) && k < b.rootEntries && |d| == |e|
    requires forall s :: 0 <= s < |d| && s != b.RootDirSector() + k / 16 ==> d[s] == e[s]
    requires b.RootDirSector() + k / 16 < |d|
    requires e[b.RootDirSector() + k / 16] == Spliced(d[b.RootDirSector() + k / 16], 32 * (k % 16), slot)
    ensures VolumeOf(e, b) == VolumeOf(d, b).(root := RootOf(d, b)[k := slot])
  {
    TablesFit(d, b);
    FatUnchanged(d, e, b);
    DataUnchanged(d, e, b);
    RootUpdated(d, e, b, k, slot);
  }

  /** The sector with the 32 bytes from offset o replaced. */
  function Spliced(s: Sector, o: nat, slot: Slot): (t: Sector)
    requires o + 32 <= 512
  {
    s[..o] + slot + s[o + 32..]
  }

  lemma SlotSpliced(s: Sector, o: nat, slot: Slot, p: nat)
    requires o % 32 == 0 && p % 32 == 0 && o < 512 && p < 512
    ensures o + 32 <= 512 && p + 32 <= 512
    ensures Spliced(s, o, slot)[p..p + 32] == if p == o then slot else s[p..p + 32]
  {
    assert p != o ==> p + 32 <= o || o + 32 <= p;
    var t := Spliced(s, o, slot);
    if p != o {
      assert forall i :: p <= i < p + 32 ==> t[i] == s[i];
    }
  }

  // ----- the volume byte by byte

  /** The fields of a boot sector, stored one after the other where the format has them. */
  function WithFields(s: Sector, perSector: nat, perCluster: Byte, reserved: nat, tables: Byte, entries: nat, total16: nat,
                      tableSize: nat, total32: nat): Sector
    requires perSector < 0x1_0000 && reserved < 0x1_0000 && entries < 0x1_0000 && total16 < 0x1_0000
    requires tableSize < 0x1_0000 && total32 < 0x1_0000_0000
  {
    var a := Put16(Put16(s, 11, perSector)[13 := perCluster], 14, reserved)[16 := tables];
    Put32(Put16(Put16(Put16(a, 17, entries), 19, total16), 22, tableSize), 32, total32)
  }

  /** Each field is read from its own place, whatever the other bytes are. */
  lemma FieldsParsed(s: Sector, perSector: nat, perCluster: Byte, reserved: nat, tables: Byte, entries: nat, total16: nat,
                     tableSize: nat, total32: nat)
    requires perSector < 0x1_0000 && reserved < 0x1_0000 && entries < 0x1_0000 && total16 < 0x1_0000
    requires tableSize < 0x1_0000 && total32 < 0x1_0000_0000
    ensures var b := ParseBpb(WithFields(s, perSector, perCluster, reserved, tables, entries, total16, tableSize, total32));
      && b.bytesPerSector == perSector && b.sectorsPerCluster == perCluster && b.reservedSectors == reserved
      && b.tables == tables && b.rootEntries == entries && b.totalSectors16 == total16
      && b.tableSize == tableSize && b.totalSectors32 == total32
  {
    hide Put16, Put32;
    var a := Put16(s, 11, perSector)[13 := perCluster];
    var c := Put16(a, 14, reserved)[16 := tables];
    var d := Put16(Put16(Put16(c, 17, entries), 19, total16), 22, tableSize);
    var t := Put32(d, 32, total32);
    assert Le16(t, 11) == Le16(a, 11) == perSector && Le16(t, 14) == Le16(c, 14) == reserved;
    assert Le16(t, 17) == entries && Le16(t, 19) == total16 && Le16(t, 22) == tableSize;
  }

  /** Entry c of the table is the 16-bit word in the first copy of the table. */
  lemma EntryOnVolume(d: seq<Sector>, b: Bpb, c: nat)
    requires b.Sound(|d|) && c < 256 * b.tableSize
    ensures c < |VolumeOf(d, b).fat| && b.reservedSectors + c / 256 < |d|
    ensures VolumeOf(d, b).fat[c] == LittleEndian(d[b.reservedSectors + c / 256], 2 * (c % 256), 2)
  {
    hide RootOf, DataOf, LittleEndian;
    TablesFit(d, b);
    LoadsLittleEndian(d[b.reservedSectors + c / 256], 2 * (c % 256));
  }

  /** Slot k of the root directory is 32 bytes behind the tables. */
  lemma SlotOnVolume(d: seq<Sector>, b: Bpb, k: nat, o: nat)
    requires b.Sound(|d|) && k < b.rootEntries && o < 32
    ensures k < |VolumeOf(d, b).root| && b.reservedSectors + b.tables * b.tableSize + k / 16 < |d|
    ensures VolumeOf(d, b).root[k][o] == d[b.reservedSectors + b.tables * b.tableSize + k / 16][32 * (k % 16) + o]
  {
    hide FatOf, DataOf;
    TablesFit(d, b);
  }

  lemma {:induction false} SpanByte(d: seq<Sector>, first: nat, n: nat, o: nat)
    requires first + n <= |d| && o < 512 * n
    ensures Span(d, first, n)[o] == d[first + o / 512][o % 512]
  {
    if o < 512 * (n - 1) {
      SpanByte(d, first, n - 1, o);
    }
  }

  /** Byte o of cluster c: the clusters, from number 2 on, follow the root directory. */
  lemma ClusterOnVolume(d: seq<Sector>, b: Bpb, c: nat, o: nat)
    requires b.Sound(|d|) && 2 <= c < |VolumeOf(d, b).data| && o < |VolumeOf(d, b).data[c]|
    ensures var first := b.reservedSectors + b.tables * b.tableSize + b.rootEntries / 16 + (c - 2) * b.sectorsPerCluster;
      first + o / 512 < |d| && VolumeOf(d, b).data[c][o] == d[first + o / 512][o % 512]
  {
    hide FatOf, RootOf, Span;
    TablesFit(d, b);
    ClusterIsSpan(d, b, c);
    SpanByte(d, b.ClusterSector(c), b.sectorsPerCluster, o);
  }

  /** How many clusters there are: as many as fit behind the root directory. */
  lemma ClustersOnVolume(d: seq<Sector>, b: Bpb)
    requires b.Sound(|d|)
    ensures var total := if b.totalSectors16 == 0 then b.totalSectors32 else b.totalSectors16;
      var first := b.reservedSectors + b.tables * b.tableSize + b.rootEntries / 16;
      var n := |VolumeOf(d, b).data| - 2;
      n >= 0 && first + n * b.sectorsPerCluster <= total < first + n * b.sectorsPerCluster + b.sectorsPerCluster
    ensures |VolumeOf(d, b).fat| == 256 * b.tableSize && |VolumeOf(d, b).root| == b.rootEntries
  {
    hide Span, ClusterOf, SlotOf, Le16;
    TablesFit(d, b);
    ClustersFill(b, b.TotalSectors() - b.DataSector());
  }

  lemma ClustersFill(b: Bpb, rest: nat)
    requires b.sectorsPerCluster >= 1
    ensures var n := rest / b.sectorsPerCluster; n * b.sectorsPerCluster <= rest < n * b.sectorsPerCluster + b.sectorsPerCluster
  {
    assert rest == b.sectorsPerCluster * (rest / b.sectorsPerCluster) + rest % b.sectorsPerCluster;
  }

  lemma ClusterLong(d: seq<Sector>, b: Bpb, c: nat)
    requires b.Sound(|d|) && 2 <= c < |VolumeOf(d, b).data|
    ensures |VolumeOf(d, b).data[c]| == 512 * b.sectorsPerCluster
  {
    hide FatOf, RootOf;
    TablesFit(d, b);
  }
}
