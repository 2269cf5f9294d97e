/** Whole runs of the FAT16 driver behave like a map from 8.3 names to byte strings. */
module Fat16Run {
  import opened Bytes
  import opened Fat16Layout
  import opened Fat16Chains
  import opened Fat16Files
  import opened Fat16Store
  import opened Fat16Names
  import opened Fat16Write
  import opened Fat16Driver

  datatype Op =
    | Write(name: CString, bytes: seq<Byte>)
    | Delete(name: CString)
    | Read(name: CString)
    | Size(name: CString)

  /** What an operation returns, and the bytes a read delivers. */
  datatype Reply = Reply(code: int, bytes: seq<Byte>)

  type FileMap = map<seq<Byte>, seq<Byte>>

  /** Sizes are 32-bit. */
  predicate Usable(op: Op) { op.Write? ==> |op.bytes| < 0x1_0000_0000 }

  /** There is room for what the operation writes. */
  ghost predicate Storable(v: Volume, cb: nat, op: Op) {
    op.Write? ==> CanStore(v, cb, FatName(op.name), |op.bytes|)
  }

  /** The operation is an overwrite that will run out of room after giving up the old clusters. */
  ghost predicate Breaks(v: Volume, cb: nat, op: Op) {
    op.Write? && Occupied(v, FatName(op.name)) && !CanStore(v, cb, FatName(op.name), |op.bytes|)
  }

  /** The map machine: one operation takes m to m' and answers r. A write for which there is no room
      changes nothing; nor does one whose name starts with the mark of a deleted entry. */
  ghost predicate Step(m: FileMap, op: Op, r: Reply, m': FileMap, room: bool)
    requires Usable(op)
  {
    var n := FatName(op.name);
    match op
    case Write(_, bytes) =>
      if !room then r.code == 0 && m' == m
      else r.code == AsInt(|bytes|) && m' == if n[0] == 0xE5 then m else m[n := bytes]
    case Delete(_) =>
      m' == m - {n} && r.code == if n in m then 1 else 0
    case Read(_) =>
      m' == m && if n in m then
        |m[n]| < 0x1_0000_0000 && r == Reply(AsInt(|m[n]|), m[n]) else r == Reply(0, [])
    case Size(_) =>
      m' == m && r.code == if n in m then |m[n]| else 0
  }

  /** The operation stores bytes under a name that starts with the mark of a deleted entry. */
  ghost predicate Hides(v: Volume, cb: nat, op: Op) {
    op.Write? && FatName(op.name)[0] == 0xE5 && Storable(v, cb, op)
  }

  // ----- the clusters of a sound volume

  ghost predicate SoundVolume(v: Volume, cb: nat) { exists chains :: Owns(v, cb, chains) }

  /** The one assignment of chains to slots. */
  ghost function ChainsOf(v: Volume, cb: nat): (chains: seq<seq<nat>>)
    requires SoundVolume(v, cb)
    ensures Owns(v, cb, chains)
  {
    var chains :| Owns(v, cb, chains);
    chains
  }

  ghost function Owned(chains: seq<seq<nat>>): set<nat> {
    set k, c | 0 <= k < |chains| && c in chains[k] :: c
  }

  /** Clusters in use by files and directories. */
  ghost function UsedClusters(v: Volume, cb: nat): set<nat>
    requires SoundVolume(v, cb)
  {
    Owned(ChainsOf(v, cb))
  }

  /** Clusters marked as in use that belong to nothing. */
  ghost function Lost(v: Volume, cb: nat): set<nat>
    requires SoundVolume(v, cb)
  {
    LostClusters(v, ChainsOf(v, cb))
  }

  ghost function AllClusters(v: Volume): set<nat> {
    set c {:trigger v.fat[c]} | 2 <= c < |v.data| && c < |v.fat|
  }

  /** Every cluster is free, in use or lost, and only one of these. */
  lemma ClustersParted(v: Volume, cb: nat)
    requires SoundVolume(v, cb)
    ensures FreeClusters(v) + UsedClusters(v, cb) + Lost(v, cb) == AllClusters(v)
    ensures |FreeClusters(v)| + |UsedClusters(v, cb)| + |Lost(v, cb)| == |AllClusters(v)|
  {
    hide Owned;
    var chains := ChainsOf(v, cb);
    var free, used, lost := FreeClusters(v), Owned(chains), Lost(v, cb);
    OwnedParts(v, cb, chains);
    assert free + used + lost == AllClusters(v);
    assert |free + used| == |free| + |used|;
    assert |free + used + lost| == |free + used| + |lost|;
  }

  lemma OwnedParts(v: Volume, cb: nat, chains: seq<seq<nat>>)
    requires Owns(v, cb, chains)
    ensures forall c :: c in Owned(chains) <==> c in AllClusters(v) && v.fat[c] != 0 && c !in LostClusters(v, chains)
  {
    hide OwnsBut;
    forall k | 0 <= k < |chains| ensures forall x :: x in chains[k] ==> 2 <= x < |v.data| && x < |v.fat| && v.fat[x] != 0 {
      OwnedAllocated(v, cb, chains, k);
    }
  }

  lemma SoundChains(v: Volume, cb: nat, chains: seq<seq<nat>>)
    requires Owns(v, cb, chains)
    ensures SoundVolume(v, cb) && ChainsOf(v, cb) == chains
  {
    OwnsUnique(v, cb, chains, ChainsOf(v, cb));
  }

  /** What one operation does with the clusters: it loses as many as the bytes take if it hides them,
      and none otherwise. */
  ghost predicate ClusterStep(v: Volume, cb: nat, op: Op, w: Volume) {
    && SoundVolume(v, cb) && SoundVolume(w, cb) && |w.fat| == |v.fat| && |w.data| == |v.data|
    && if Hides(v, cb, op) then LosesChain(v, cb, w, |op.bytes|) else Lost(w, cb) == Lost(v, cb)
  }

  /** As many clusters as `size` bytes take, at least one, have gone from the free to the lost ones. */
  ghost predicate LosesChain(v: Volume, cb: nat, w: Volume, size: nat)
    requires SoundVolume(v, cb) && SoundVolume(w, cb)
  {
    ChainsOf(w, cb) == ChainsOf(v, cb) && ChainOrphaned(v, w, ChainsOf(v, cb), cb, size)
  }

  lemma StepKeepsClusters(v: Volume, cb: nat, chains: seq<seq<nat>>, op: Op, w: Volume, chains': seq<seq<nat>>)
    requires Owns(v, cb, chains) && Owns(w, cb, chains') && |w.fat| == |v.fat| && |w.data| == |v.data|
    requires if Hides(v, cb, op) then chains' == chains && ChainOrphaned(v, w, chains, cb, |op.bytes|)
             else LostClusters(w, chains') == LostClusters(v, chains)
    ensures ClusterStep(v, cb, op, w)
  {
    hide OwnsBut, Hides, ChainOrphaned, LostClusters;
    SoundChains(v, cb, chains);
    SoundChains(w, cb, chains');
  }

  /** One operation takes volume v to w as the map machine says. */
  ghost predicate StepAt(v: Volume, cb: nat, op: Op, r: Reply, w: Volume) {
    && Shaped(v, cb) && Shaped(w, cb) && Usable(op) && !Breaks(v, cb, op)
    && Step(Files(v, cb), op, r, Files(w, cb), Storable(v, cb, op)) && ClusterStep(v, cb, op, w)
  }

  /** vs are the volumes a run passes through. */
  ghost predicate Trace(vs: seq<Volume>, cb: nat, ops: seq<Op>, replies: seq<Reply>) {
    && |vs| == |replies| + 1 <= |ops| + 1
    && forall i :: 0 <= i < |replies| ==> StepAt(vs[i], cb, ops[i], replies[i], vs[i + 1])
  }

  /** How many clusters a file of this size takes: one even if it is empty. */
  function ChainLength(size: nat, cb: nat): (n: nat)
    requires cb > 0
    ensures n >= 1
  {
    if size <= cb then 1 else 1 + ChainLength(size - cb, cb)
  }

  lemma {:induction false} FitsOne(size: nat, n: nat, cb: nat)
    requires cb > 0 && n >= 1 && Fits(size, n, cb)
    ensures n == ChainLength(size, cb)
    decreases size
  {
    hide Capacity;
    CapacityNext(n - 1, cb);
    if size <= cb {
      if n > 1 {
        CapacityNext(0, cb);
        CapacityMonotone(1, n - 1, cb);
      }
    } else {
      CapacityNext(0, cb);
      FitsOne(size - cb, n - 1, cb);
    }
  }

  /** The clusters that the first n operations of a run hide. */
  ghost function Hidden(vs: seq<Volume>, cb: nat, ops: seq<Op>, n: nat): nat
    requires cb > 0 && n <= |ops| && n <= |vs|
  {
    if n == 0 then 0
    else Hidden(vs, cb, ops, n - 1) + if Hides(vs[n - 1], cb, ops[n - 1]) then ChainLength(|ops[n - 1].bytes|, cb) else 0
  }

  lemma {:induction false} NoneHidden(vs: seq<Volume>, cb: nat, ops: seq<Op>, n: nat)
    requires cb > 0 && n <= |ops| && n <= |vs|
    ensures Hidden(vs, cb, ops, n) == 0 <==> forall i :: 0 <= i < n ==> !Hides(vs[i], cb, ops[i])
  {
    if n > 0 {
      NoneHidden(vs, cb, ops, n - 1);
    }
  }

  /** One operation loses clusters exactly as it hides them, and the others are free or in use. */
  lemma StepConserves(v: Volume, cb: nat, op: Op, w: Volume)
    requires cb > 0 && ClusterStep(v, cb, op, w)
    ensures Lost(v, cb) <= Lost(w, cb)
    ensures |Lost(w, cb)| == |Lost(v, cb)| + if Hides(v, cb, op) then ChainLength(|op.bytes|, cb) else 0
    ensures AllClusters(w) == AllClusters(v)
  {
    hide OwnsBut, CanStore, FatName, FreeClusters;
    if Hides(v, cb, op) {
      var cs :| Orphaned(v, w, ChainsOf(v, cb), cs) && cs != [] && Fits(|op.bytes|, |cs|, cb);
      FitsOne(|op.bytes|, |cs|, cb);
      ElementsCount(cs);
      RoomNotLost(v, cb);
      assert |Lost(v, cb) + Elements(cs)| == |Lost(v, cb)| + |Elements(cs)|;
    }
  }

  lemma RoomNotLost(v: Volume, cb: nat)
    requires SoundVolume(v, cb)
    ensures Room(v) !! Lost(v, cb)
  {
    forall c | c in Room(v) ensures c !in Lost(v, cb) {
      assert Allocatable(v, c);
    }
  }

  /** Over any run the lost clusters grow by exactly those that were hidden, and free clusters and
      clusters in use together become fewer by as many: without a name that starts with 0xE5 a run loses
      nothing. */
  lemma {:induction false} RunConserves(vs: seq<Volume>, cb: nat, ops: seq<Op>, replies: seq<Reply>, n: nat)
    requires cb > 0 && Trace(vs, cb, ops, replies) && n <= |replies| && SoundVolume(vs[0], cb)
    ensures SoundVolume(vs[n], cb) && Lost(vs[0], cb) <= Lost(vs[n], cb)
    ensures |Lost(vs[n], cb)| == |Lost(vs[0], cb)| + Hidden(vs, cb, ops, n)
    ensures |FreeClusters(vs[n])| + |UsedClusters(vs[n], cb)| + Hidden(vs, cb, ops, n)
         == |FreeClusters(vs[0])| + |UsedClusters(vs[0], cb)|
    decreases n
  {
    hide OwnsBut, Hides, FreeClusters, LostClusters, Step, AllClusters, ClusterStep, Lost, UsedClusters;
    if n > 0 {
      RunConserves(vs, cb, ops, replies, n - 1);
      assert StepAt(vs[n - 1], cb, ops[n - 1], replies[n - 1], vs[n]);
      StepSound(vs[n - 1], cb, ops[n - 1], vs[n]);
      StepConserves(vs[n - 1], cb, ops[n - 1], vs[n]);
      ClustersParted(vs[n - 1], cb);
      ClustersParted(vs[n], cb);
    }
  }

  /** A run loses clusters if and only if it completes a write under a name that starts with 0xE5. */
  lemma RunLoses(vs: seq<Volume>, cb: nat, ops: seq<Op>, replies: seq<Reply>)
    requires cb > 0 && Trace(vs, cb, ops, replies) && SoundVolume(vs[0], cb)
    ensures SoundVolume(vs[|replies|], cb)
    ensures Lost(vs[|replies|], cb) == Lost(vs[0], cb) <==> forall i :: 0 <= i < |replies| ==> !Hides(vs[i], cb, ops[i])
  {
    hide OwnsBut, Hides, FreeClusters, StepAt, Lost, UsedClusters;
    RunConserves(vs, cb, ops, replies, |replies|);
    NoneHidden(vs, cb, ops, |replies|);
    SameSize(Lost(vs[0], cb), Lost(vs[|replies|], cb));
  }

  lemma SameSize(a: set<nat>, b: set<nat>)
    requires a <= b
    ensures a == b <==> |a| == |b|
  {
    assert b == a + (b - a);
    assert |b| == |a| + |b - a|;
  }

  lemma StepSound(v: Volume, cb: nat, op: Op, w: Volume)
    requires ClusterStep(v, cb, op, w)
    ensures SoundVolume(v, cb) && SoundVolume(w, cb)
  {
  }

  /** What a failed overwrite leaves: the entry, without clusters; a volume with no proper chains; and
      everything else in use as it was. */
  ghost predicate Broken(v: Volume, cb: nat, n: Name, w: Volume) {
    && UsedKept(Released(v, n), w) && Cleared(w, n)
    && forall chains :: !Owns(w, cb, chains)
  }

  lemma FailedBreaks(v: Volume, w: Volume, cb: nat, chains: seq<seq<nat>>, n: Name)
    requires Owns(v, cb, chains) && DirectoryOk(v.root) && Occupied(v, n)
    requires UsedKept(Released(v, n), w) && Shaped(w, cb)
    ensures Broken(v, cb, n, w) && DirectoryOk(w.root)
    ensures Occupied(w, n) ==> FirstCluster(w.root[Match(w.root, n)]) < |w.fat|
  {
    hide Shaped, DirectoryOk, Freed;
    FailedCleared(v, w, cb, chains, n);
    WriteFailed(v, w, cb, chains, n);
  }

  /** Looks whether the entry of that name has lost its clusters. */
  method LooksCleared(d: Driver, n: Name) returns (cleared: bool)
    requires d.Mounted() && DirectoryOk(d.V().root)
    requires Occupied(d.V(), n) ==> FirstCluster(d.V().root[Match(d.V().root, n)]) < |d.V().fat|
    ensures cleared <==> Cleared(d.V(), n)
  {
    hide FatOf, RootOf, DataOf, Mirrored, DirectoryOk, Bpb.Sound, HasName, TargetAt, Le16;
    VolumeShaped(d.disk, d.bpb);
    var matched, sec, idx := d.FindTarget(n);
    if !matched {
      return false;
    }
    MatchUnique(d.V().root, n, 16 * sec + idx);
    var s := d.ReadRootSector(sec);
    assert d.SlotIn(sec, idx, s);
    var c := FirstCluster(s[32 * idx..32 * idx + 32]);
    if !Followed(c) {
      return false;
    }
    var value := d.GetFatEntry(c);
    cleared := value == 0;
  }

  /** One operation. It is a step of the map machine, unless it is an overwrite that runs out of room;
      `broken` reports exactly that. */
  method Perform(d: Driver, op: Op) returns (r: Reply, broken: bool)
    requires d.Valid() && Usable(op)
    modifies d`disk, d`chains
    ensures d.Mounted() && OutsideKept(old(d.disk), d.disk, d.bpb)
    ensures broken <==> Breaks(old(d.V()), d.bpb.ClusterSize(), op)
    ensures !broken ==> d.Valid() && StepAt(old(d.V()), d.bpb.ClusterSize(), op, r, d.V())
    ensures broken ==> r.code == 0 && Broken(old(d.V()), d.bpb.ClusterSize(), FatName(op.name), d.V())
  {
    hide FatOf, RootOf, DataOf, Mirrored, FatName, OwnsBut, DirectoryOk, OutsideKept, CanStore, Files, Walk, HasName, Shaped,
      Bpb.Sound, Occupied, Cleared, UsedKept, Released, ChainReplaced, MetadataKept, LostClusters, FreeClusters, ClusterStep;
    OutsideKeptTwice(d.disk, d.disk, d.disk, d.bpb);
    VolumeShaped(d.disk, d.bpb);
    ghost var v, cb, chains := d.V(), d.bpb.ClusterSize(), d.chains;
    broken := false;
    match op {
      case Write(name, bytes) =>
        r, broken := PerformWrite(d, name, bytes);
      case Delete(name) =>
        var code := d.DeleteFile(name);
        r := Reply(code, []);
        VolumeShaped(d.disk, d.bpb);
        StepKeepsClusters(v, cb, chains, op, d.V(), d.chains);
      case Read(name) =>
        var size := d.GetFileSize(name);
        var buffer := new Byte[size](_ => 0);
        var code := d.ReadFile(name, buffer);
        PatchedAll(seq(size, _ => 0), d.Contents(), FatName(name), size);
        r := Reply(code, buffer[..]);
        StepKeepsClusters(v, cb, chains, op, v, chains);
      case Size(name) =>
        var size := d.GetFileSize(name);
        r := Reply(size, []);
        StepKeepsClusters(v, cb, chains, op, v, chains);
    }
    VolumeShaped(d.disk, d.bpb);
  }

  method PerformWrite(d: Driver, name: CString, bytes: seq<Byte>) returns (r: Reply, broken: bool)
    requires d.Valid() && |bytes| < 0x1_0000_0000
    modifies d`disk, d`chains
    ensures d.Mounted() && OutsideKept(old(d.disk), d.disk, d.bpb)
    ensures broken <==> Breaks(old(d.V()), d.bpb.ClusterSize(), Write(name, bytes))
    ensures !broken ==> d.Valid() && StepAt(old(d.V()), d.bpb.ClusterSize(), Write(name, bytes), r, d.V())
    ensures broken ==> r.code == 0 && Broken(old(d.V()), d.bpb.ClusterSize(), FatName(name), d.V())
  {
    hide FatOf, RootOf, DataOf, Mirrored, FatName, OwnsBut, DirectoryOk, OutsideKept, CanStore, Files, Walk, HasName, Shaped,
      Bpb.Sound, Occupied, Cleared, UsedKept, Released, ChainReplaced, MetadataKept, Broken, LostClusters, FreeClusters, ClusterStep, ChainOrphaned;
    ghost var v, cb, chains := d.V(), d.bpb.ClusterSize(), d.chains;
    VolumeShaped(d.disk, d.bpb);
    var n := FormatName(name);
    var code := d.WriteFile(name, bytes);
    VolumeShaped(d.disk, d.bpb);
    r := Reply(code, []);
    if Occupied(v, n) && !CanStore(v, cb, n, |bytes|) {
      FailedBreaks(v, d.V(), cb, chains, n);
      ClearedAfter(v, cb, n, d.V());
    } else {
      WriteKeepsClusters(v, cb, chains, Write(name, bytes), d.V(), d.chains);
      SoundNotCleared(d.V(), cb, d.chains, n);
      OccupiedInTable(d.V(), cb, d.chains, n);
    }
    broken := LooksCleared(d, n);
  }

  lemma WriteKeepsClusters(v: Volume, cb: nat, chains: seq<seq<nat>>, op: Op, w: Volume, chains': seq<seq<nat>>)
    requires op.Write? && Owns(v, cb, chains) && Owns(w, cb, chains') && |w.fat| == |v.fat| && |w.data| == |v.data|
    requires DirectoryOk(v.root)
    requires CanStore(v, cb, FatName(op.name), |op.bytes|) ==>
      if FatName(op.name)[0] == 0xE5 then chains' == chains && ChainOrphaned(v, w, chains, cb, |op.bytes|)
      else ChainReplaced(v, chains, w, chains', cb, |op.bytes|)
    requires !CanStore(v, cb, FatName(op.name), |op.bytes|) ==>
      chains' == chains && UsedKept(Released(v, FatName(op.name)), w) && !Occupied(v, FatName(op.name))
    ensures ClusterStep(v, cb, op, w)
  {
    hide OwnsBut, ChainOrphaned, LostClusters, FreeClusters, CanStore, FatName, Released, Occupied, DirectoryOk, ClusterStep;
    if !CanStore(v, cb, FatName(op.name), |op.bytes|) {
      OwnsShaped(w, cb, chains');
      WriteFailed(v, w, cb, chains, FatName(op.name));
      SameLost(v, w, chains);
    }
    StepKeepsClusters(v, cb, chains, op, w, chains');
  }

  lemma OwnsShaped(v: Volume, cb: nat, chains: seq<seq<nat>>)
    requires Owns(v, cb, chains)
    ensures Shaped(v, cb)
  {
  }

  lemma SameLost(v: Volume, w: Volume, chains: seq<seq<nat>>)
    requires w.fat == v.fat && |w.data| == |v.data|
    ensures LostClusters(w, chains) == LostClusters(v, chains)
  {
  }

  lemma ClearedAfter(v: Volume, cb: nat, n: Name, w: Volume)
    requires Broken(v, cb, n, w)
    ensures Cleared(w, n)
  {
  }

  lemma OccupiedInTable(v: Volume, cb: nat, chains: seq<seq<nat>>, n: Name)
    requires Owns(v, cb, chains)
    ensures Occupied(v, n) ==> FirstCluster(v.root[Match(v.root, n)]) < |v.fat|
  {
    if HasName(v.root, n) {
      OccupiedOwns(v, cb, chains, n);
    }
  }

  lemma PatchedAll(b: seq<Byte>, m: FileMap, n: seq<Byte>, size: nat)
    requires |b| == size == if n in m then |m[n]| else 0
    ensures n in m ==> Patched(b, 0, m[n]) == m[n]
  {
  }

  /** Any run: the replies and the final contents are those of the map machine started on the files of
      the volume. The run stops early only at an overwrite for which there is no room. */
  method Run(d: Driver, ops: seq<Op>) returns (replies: seq<Reply>, complete: bool, ghost vs: seq<Volume>)
    requires d.Valid() && forall i :: 0 <= i < |ops| ==> Usable(ops[i])
    modifies d`disk, d`chains
    ensures d.Mounted() && OutsideKept(old(d.disk), d.disk, d.bpb)
    ensures Trace(vs, d.bpb.ClusterSize(), ops, replies) && vs[0] == old(d.V())
    ensures complete ==> |replies| == |ops| && d.Valid() && d.V() == vs[|ops|]
    ensures SoundVolume(old(d.V()), d.bpb.ClusterSize()) && SoundVolume(vs[|replies|], d.bpb.ClusterSize())
    ensures Lost(vs[|replies|], d.bpb.ClusterSize()) == old(Lost(d.V(), d.bpb.ClusterSize())) <==>
      forall i :: 0 <= i < |replies| ==> !Hides(vs[i], d.bpb.ClusterSize(), ops[i])
    ensures !complete ==> |replies| < |ops| && Breaks(vs[|replies|], d.bpb.ClusterSize(), ops[|replies|])
    ensures !complete ==> Broken(vs[|replies|], d.bpb.ClusterSize(), FatName(ops[|replies|].name), d.V())
  {
    hide FatOf, RootOf, DataOf, Mirrored, FatName, OwnsBut, DirectoryOk, OutsideKept, Shaped, Bpb.Sound, StepAt, Breaks, Broken,
      Hides, Lost;
    ghost var cb := d.bpb.ClusterSize();
    SoundChains(d.V(), cb, d.chains);
    SizeOfClusters(d.V(), cb, d.chains);
    OutsideKeptTwice(d.disk, d.disk, d.disk, d.bpb);
    replies, complete, vs := [], true, [d.V()];
    while |replies| < |ops|
      invariant d.Valid() && Trace(vs, d.bpb.ClusterSize(), ops, replies) && vs[0] == old(d.V())
      invariant d.V() == vs[|replies|] && complete
      invariant OutsideKept(old(d.disk), d.disk, d.bpb)
    {
      ghost var before := d.disk;
      var r, broken := Perform(d, ops[|replies|]);
      OutsideKeptTwice(old(d.disk), before, d.disk, d.bpb);
      if broken {
        RunLoses(vs, cb, ops, replies);
        return replies, false, vs;
      }
      replies, vs := replies + [r], vs + [d.V()];
    }
    RunLoses(vs, cb, ops, replies);
  }

  lemma SizeOfClusters(v: Volume, cb: nat, chains: seq<seq<nat>>)
    requires Owns(v, cb, chains)
    ensures cb > 0
  {
  }
}
