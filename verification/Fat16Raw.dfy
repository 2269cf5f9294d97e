/** What the cluster loops do on any disk, sound volume or not: the words they take for table entries,
    wherever on the disk those lie, and why the loop that clears them comes to an end. */
module Fat16Raw {
  import opened Bytes
  import opened Fat16Layout
  import opened Fat16Chains

  /** The 16-bit word the driver takes for the entry of cluster c. */
  function Word(d: seq<Sector>, b: Bpb, c: nat): (w: nat)
    ensures w < 0x1_0000
  {
    if EntrySector(b, c) < |d| then Le16(d[EntrySector(b, c)], 2 * (c % 256)) else 0
  }

  /** The sector of that word is on the disk, and so is the one its copy goes to. */
  predicate EntryOnDisk(d: seq<Sector>, b: Bpb, c: nat) {
    EntrySector(b, c) < |d| && (b.tables > 1 ==> EntrySector(b, c) + b.tableSize < |d|)
  }

  // ----- clearing comes to an end

  /** How many of a sector's first k words are not zero. */
  function NonZero(s: Sector, k: nat): (n: nat)
    requires k <= 256
    ensures n <= k
  {
    if k == 0 then 0 else NonZero(s, k - 1) + if Le16(s, 2 * (k - 1)) != 0 then 1 else 0
  }

  lemma {:induction false} ClearedWord(s: Sector, i: nat, k: nat)
    requires i < 256 && Le16(s, 2 * i) != 0 && k <= 256
    ensures NonZero(Put16(s, 2 * i, 0), k) == NonZero(s, k) - if i < k then 1 else 0
  {
    if k > 0 {
      ClearedWord(s, i, k - 1);
      assert i != k - 1 ==> Le16(Put16(s, 2 * i, 0), 2 * (k - 1)) == Le16(s, 2 * (k - 1));
    }
  }

  ghost function Count(d: seq<Sector>, b: Bpb, k: nat): (n: nat)
    ensures n <= 256
  {
    if b.reservedSectors + k < |d| then NonZero(d[b.reservedSectors + k], 256) else 0
  }

  /** The counts of the first k sectors, the first the most significant. */
  ghost function RankOf(d: seq<Sector>, b: Bpb, k: nat): nat {
    if k == 0 then 0 else 257 * RankOf(d, b, k - 1) + Count(d, b, k - 1)
  }

  lemma {:induction false} RankSame(d: seq<Sector>, e: seq<Sector>, b: Bpb, k: nat)
    requires forall j :: 0 <= j < k ==> Count(e, b, j) == Count(d, b, j)
    ensures RankOf(e, b, k) == RankOf(d, b, k)
  {
    if k > 0 {
      RankSame(d, e, b, k - 1);
    }
  }

  lemma {:induction false} RankDrops(d: seq<Sector>, e: seq<Sector>, b: Bpb, s: nat, k: nat)
    requires s < k && Count(e, b, s) < Count(d, b, s)
    requires forall j :: 0 <= j < s ==> Count(e, b, j) == Count(d, b, j)
    ensures RankOf(e, b, k) < RankOf(d, b, k)
    decreases k
  {
    if k == s + 1 {
      RankSame(d, e, b, s);
    } else {
      RankDrops(d, e, b, s, k - 1);
    }
  }

  /** Clearing a word makes the rank smaller: the sectors before it keep theirs, its own loses one, and
      what the copy does is done further on. */
  lemma ClearDrops(d: seq<Sector>, b: Bpb, c: nat)
    requires Followed(c) && EntryOnDisk(d, b, c) && Word(d, b, c) != 0
    ensures RankOf(WithEntry(d, b, c, 0), b, 256) < RankOf(d, b, 256)
  {
    hide Put16, Le16, NonZero;
    var e, s := WithEntry(d, b, c, 0), c / 256;
    ClearedWord(d[EntrySector(b, c)], c % 256, 256);
    RankDrops(d, e, b, s, 256);
  }

  /** The disk after the clearing loop has run from c. */
  ghost function Swept(d: seq<Sector>, b: Bpb, c: nat): (e: seq<Sector>)
    ensures |e| == |d|
    decreases RankOf(d, b, 256)
  {
    if !Followed(c) || !EntryOnDisk(d, b, c) then d
    else if Word(d, b, c) == 0 then WithEntry(d, b, c, 0)
    else
      ClearDrops(d, b, c);
      Swept(WithEntry(d, b, c, 0), b, Word(d, b, c))
  }

  /** Every sector the clearing loop reads or writes from c on is on the disk. */
  ghost predicate SweepOnDisk(d: seq<Sector>, b: Bpb, c: nat)
    decreases RankOf(d, b, 256)
  {
    Followed(c) ==> EntryOnDisk(d, b, c) && (Word(d, b, c) != 0 ==>
      (ClearDrops(d, b, c); SweepOnDisk(WithEntry(d, b, c, 0), b, Word(d, b, c))))
  }

  /** On a disk with room for every 16-bit cluster number no table is excluded: links may lead anywhere,
      out of the table too. */
  lemma {:induction false} LargeDiskSweeps(d: seq<Sector>, b: Bpb, c: nat)
    requires b.reservedSectors + 256 + b.tableSize <= |d|
    ensures SweepOnDisk(d, b, c)
    decreases RankOf(d, b, 256)
  {
    if Followed(c) && Word(d, b, c) != 0 {
      ClearDrops(d, b, c);
      LargeDiskSweeps(WithEntry(d, b, c, 0), b, Word(d, b, c));
    }
  }

  /** Nothing is written before the table, nor behind the last word a cluster number can mean and its
      copy. */
  lemma {:induction false} SweptWithin(d: seq<Sector>, b: Bpb, c: nat, s: nat)
    requires s < |d| && !(b.reservedSectors <= s < b.reservedSectors + 256 + b.tableSize)
    ensures Swept(d, b, c)[s] == d[s]
    decreases RankOf(d, b, 256)
  {
    if Followed(c) && EntryOnDisk(d, b, c) && Word(d, b, c) != 0 {
      ClearDrops(d, b, c);
      SweptWithin(WithEntry(d, b, c, 0), b, Word(d, b, c), s);
    }
  }

  /** Where the links stay in the table of a sound volume, the loop on the disk is the walk on the
      table, and the rest of the volume is as it was. */
  lemma {:induction false} SweptInTable(d: seq<Sector>, b: Bpb, c: nat)
    requires b.Sound(|d|) && StaysInTable(FatOf(d, b), c)
    ensures SweepOnDisk(d, b, c)
    ensures VolumeOf(Swept(d, b, c), b) == VolumeOf(d, b).(fat := Freed(FatOf(d, b), c))
    ensures Mirrored(d, b) ==> Mirrored(Swept(d, b, c), b)
    decreases RankOf(d, b, 256)
  {
    hide FatOf, RootOf, DataOf, Mirrored, WithEntry, Le16, RankOf;
    if Followed(c) {
      TablesFit(d, b);
      FatSize(d, b);
      EntryFits(d, b, c);
      FatAt(d, b, c);
      EntryWritten(d, b, c, 0);
      if Word(d, b, c) != 0 {
        ClearDrops(d, b, c);
        SweptInTable(WithEntry(d, b, c, 0), b, Word(d, b, c));
      } else {
        assert FatOf(d, b)[c := 0] == FatOf(d, b);
      }
    }
  }

  lemma FatSize(d: seq<Sector>, b: Bpb)
    requires b.Sound(|d|)
    ensures |FatOf(d, b)| == b.TableEntries() && b.tableSize > 0
  {
    TablesFit(d, b);
  }

  // ----- reading

  ghost function RawCluster(d: seq<Sector>, b: Bpb, c: nat): (s: seq<Byte>)
    requires c >= 2 && b.ClusterSector(c) + b.sectorsPerCluster <= |d|
    ensures |s| == b.ClusterSize()
  {
    Span(d, b.ClusterSector(c), b.sectorsPerCluster)
  }

  /** The first n bytes found by following the words of the disk from c. */
  ghost function RawWalk(d: seq<Sector>, b: Bpb, c: nat, n: nat): (s: seq<Byte>)
    requires b.sectorsPerCluster >= 1
    ensures |s| <= n
    decreases n
  {
    if n == 0 || !Followed(c) || b.ClusterSector(c) + b.sectorsPerCluster > |d| then []
    else if n <= b.ClusterSize() then RawCluster(d, b, c)[..n]
    else RawCluster(d, b, c) + RawWalk(d, b, Word(d, b, c), n - b.ClusterSize())
  }

  /** Every sector that reading n bytes from c asks for is on the disk. */
  ghost predicate ReadOnDisk(d: seq<Sector>, b: Bpb, c: nat, n: nat)
    requires b.sectorsPerCluster >= 1
    decreases n
  {
    Followed(c) ==>
      b.ClusterSector(c) + b.sectorsPerCluster <= |d| && (n > b.ClusterSize() ==>
        EntrySector(b, c) < |d| && ReadOnDisk(d, b, Word(d, b, c), n - b.ClusterSize()))
  }

  lemma RawStep(d: seq<Sector>, b: Bpb, c: nat, n: nat)
    requires b.sectorsPerCluster >= 1 && Followed(c) && ReadOnDisk(d, b, c, n)
    ensures b.ClusterSector(c) + b.sectorsPerCluster <= |d|
    ensures n <= b.ClusterSize() ==> RawWalk(d, b, c, n) == RawCluster(d, b, c)[..n]
    ensures n > b.ClusterSize() ==>
      && RawWalk(d, b, c, n) == RawCluster(d, b, c) + RawWalk(d, b, Word(d, b, c), n - b.ClusterSize())
      && EntrySector(b, c) < |d| && ReadOnDisk(d, b, Word(d, b, c), n - b.ClusterSize())
  {
  }

  lemma RawEnd(d: seq<Sector>, b: Bpb, c: nat, n: nat)
    requires b.sectorsPerCluster >= 1 && !Followed(c)
    ensures RawWalk(d, b, c, n) == []
  {
  }

  /** On a disk that has every cluster a 16-bit number can mean, no table is excluded. */
  lemma {:induction false} LargeDiskReads(d: seq<Sector>, b: Bpb, c: nat, n: nat)
    requires b.sectorsPerCluster >= 1 && b.reservedSectors + 256 <= |d|
    requires b.DataSector() + 0xFFEE * b.sectorsPerCluster <= |d|
    ensures ReadOnDisk(d, b, c, n)
    decreases n
  {
    if Followed(c) {
      MultiplesApart(c - 2, 0xFFEE, b.sectorsPerCluster);
      if n > b.ClusterSize() {
        LargeDiskReads(d, b, Word(d, b, c), n - b.ClusterSize());
      }
    }
  }

  /** Where the links name existing clusters of a sound volume, the loop on the disk is the walk on the
      volume. */
  lemma {:induction false} RawWalkInVolume(d: seq<Sector>, b: Bpb, c: nat, n: nat)
    requires b.Sound(|d|) && Shaped(VolumeOf(d, b), b.ClusterSize()) && ReadsExist(VolumeOf(d, b), b.ClusterSize(), c, n)
    ensures ReadOnDisk(d, b, c, n) && RawWalk(d, b, c, n) == Walk(VolumeOf(d, b), b.ClusterSize(), c, n)
    decreases n
  {
    hide FatOf, RootOf, DataOf, Le16, Span, Shaped;
    if Followed(c) {
      VolumeShaped(d, b);
      ClusterFits(d, b, c);
      ClusterIsSpan(d, b, c);
      DataAt(d, b, c);
      EntryFits(d, b, c);
      FatAt(d, b, c);
      if n > b.ClusterSize() {
        RawWalkInVolume(d, b, Word(d, b, c), n - b.ClusterSize());
      }
    }
  }

  lemma DataAt(d: seq<Sector>, b: Bpb, c: nat)
    requires b.Sound(|d|) && 2 <= c < b.TotalClusters() + 2
    ensures c < |DataOf(d, b)| && DataOf(d, b)[c] == ClusterOf(d, b, c)
  {
    TablesFit(d, b);
  }
}
