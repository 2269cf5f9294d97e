/** What a whole write or delete does to a volume: which slot it uses, when it succeeds, what it
    leaves when it fails, and the files that result. */
module Fat16Write {
  import opened Bytes
  import opened Fat16Layout
  import opened Fat16Chains
  import opened Fat16Files
  import opened Fat16Store

  ghost predicate NamedAt(root: seq<Slot>, n: Name, k: int) {
    0 <= k < |root| && Named(root[k]) && NameOf(root[k]) == n
  }

  ghost predicate HasName(root: seq<Slot>, n: Name) {
    exists k :: NamedAt(root, n, k)
  }

  ghost function Match(root: seq<Slot>, n: Name): (k: nat)
    requires HasName(root, n)
    ensures NamedAt(root, n, k)
  {
    var k :| NamedAt(root, n, k);
    k
  }

  /** Slot k is the one a write of n uses: the entry with that name, or else the first free one. */
  ghost predicate TargetAt(root: seq<Slot>, n: Name, k: nat) {
    k < |root| && if HasName(root, n) then NamedAt(root, n, k) else
      !Live(root[k]) && forall j :: 0 <= j < k ==> Live(root[j])
  }

  ghost predicate HasTarget(root: seq<Slot>, n: Name) {
    HasName(root, n) || exists k :: 0 <= k < |root| && !Live(root[k])
  }

  lemma TargetAlone(root: seq<Slot>, n: Name, k: nat)
    requires DirectoryOk(root) && TargetAt(root, n, k)
    ensures forall j :: 0 <= j < |root| && j != k && Named(root[j]) ==> NameOf(root[j]) != n
    ensures root[k][0] == 0 ==> forall j :: 0 <= j < k ==> root[j][0] != 0
  {
    forall j | 0 <= j < |root| && j != k && Named(root[j]) ensures NameOf(root[j]) != n {
      if !HasName(root, n) {
        assert !NamedAt(root, n, j);
      }
    }
  }

  /** The volume once a write of n has released the clusters of the entry it replaces. */
  ghost function Released(v: Volume, n: Name): Volume {
    if HasName(v.root, n) then v.(fat := Freed(v.fat, FirstCluster(v.root[Match(v.root, n)]))) else v
  }

  /** A write of n with this many bytes goes through: there is a slot for it, and clusters enough
      once the old content's are released. */
  ghost predicate CanStore(v: Volume, cb: nat, n: Name, size: nat) {
    HasTarget(v.root, n) && HasRoom(|Room(Released(v, n))|, size, cb)
  }

  /** Releasing, seen from slot k, whatever kind of slot it is. */
  lemma ReleasedAt(v: Volume, cb: nat, chains: seq<seq<nat>>, n: Name, k: nat)
    requires Owns(v, cb, chains) && DirectoryOk(v.root) && TargetAt(v.root, n, k)
    ensures var w := Released(v, n);
            && OwnsBut(w, cb, chains[k := []], k)
            && OnlySlot(v, w, chains, k) && w.root == v.root && w.data == v.data
            && (forall x :: 0 <= x < |v.fat| ==> w.fat[x] == if x in chains[k] then 0 else v.fat[x])
  {
    if HasName(v.root, n) {
      assert Match(v.root, n) == k;
      ReleasedOwns(v, cb, chains, k);
    } else {
      assert SlotOwns(v, cb, v.root[k], chains[k]);
      assert chains[k := []] == chains;
    }
  }

  /** The release gives the allocator exactly those of the old content's clusters that lie below
      its limit. */
  lemma ReleasedRoom(v: Volume, cb: nat, chains: seq<seq<nat>>, n: Name, k: nat)
    requires Owns(v, cb, chains) && DirectoryOk(v.root) && TargetAt(v.root, n, k)
    ensures Room(Released(v, n)) == Room(v) + (set c | c in chains[k] && c < AllocLimit(|v.data| - 2))
  {
    ReleasedAt(v, cb, chains, n, k);
    OwnedAllocated(v, cb, chains, k);
    var w := Released(v, n);
    forall c | c in chains[k] && c < AllocLimit(|v.data| - 2) ensures c in Room(w) {
      assert Allocatable(w, c);
    }
    forall c | c in Room(v) ensures c in Room(w) {
      assert Allocatable(v, c) && Allocatable(w, c);
    }
  }

  /** Clusters that other slots own come through a write untouched. */
  lemma StoredOnlySlot(v: Volume, vr: Volume, w: Volume, cb: nat, chains: seq<seq<nat>>, k: nat, s: seq<Byte>,
                       cs: seq<nat>, t: Slot, v1: Volume)
    requires Owns(v, cb, chains) && OnlySlot(v, vr, chains, k) && vr.root == v.root && vr.data == v.data
    requires Building(vr, v1, cb, s, cs) && w == v1.(root := v.root[k := t])
    ensures OnlySlot(v, w, chains, k) && Taken(vr, w, k, cs)
  {
    forall i | 0 <= i < |cs| ensures 2 <= cs[i] < |vr.data| {
      assert Allocatable(vr, cs[i]);
    }
    forall j, x | 0 <= j < |chains| && j != k && x in chains[j] && x < |v.data| && x < |v.fat|
      ensures w.fat[x] == v.fat[x] && w.data[x] == v.data[x]
    {
      OwnedAllocated(v, cb, chains, j);
      assert vr.fat[x] == v.fat[x] != 0;
      assert x !in cs;
    }
  }

  /** A completed write: the invariant holds again, the name maps to the bytes, every other file is
      unchanged, and clusters moved only between the free ones and the slot. */
  lemma WriteCompleted(v: Volume, v1: Volume, w: Volume, cb: nat, chains: seq<seq<nat>>, n: Name, k: nat,
                       s: seq<Byte>, cs: seq<nat>)
    requires Owns(v, cb, chains) && DirectoryOk(v.root) && TargetAt(v.root, n, k) && n[0] != 0xE5
    requires Building(Released(v, n), v1, cb, s, cs) && cs != [] && Fits(|s|, |cs|, cb)
    requires |s| < 0x1_0000_0000 && cs[0] < 0x1_0000
    requires w == v1.(root := v.root[k := Filled(v.root[k], n, cs[0], |s|)])
    ensures Owns(w, cb, chains[k := cs]) && DirectoryOk(w.root)
    ensures Files(w, cb) == Files(v, cb)[n := s]
    ensures |FreeClusters(w)| == |FreeClusters(v)| + |chains[k]| - |cs|
    ensures LostClusters(w, chains[k := cs]) == LostClusters(v, chains)
  {
    hide LinkedUp, FilledUp, Filled, Walk, Freed, Fits, Shaped, DirectoryOk, Files, OnlySlot, Taken, Content,
      FreeClusters, LostClusters, SlotOwns, NameOf;
    var vr, t := Released(v, n), Filled(v.root[k], n, cs[0], |s|);
    ReleasedAt(v, cb, chains, n, k);
    StoredOnlySlot(v, vr, w, cb, chains, k, s, cs, t, v1);
    BuildingOwns(vr, v1, cb, s, cs, v.root[k], n, |s|);
    SameTables(v1, w, cb, t);
    WriteCompletedOwns(v, vr, v1, w, cb, chains, k, s, cs, t);
    TargetAlone(v.root, n, k);
    FilledDirectory(v.root, k, t);
    FilesChanged(v, w, cb, chains, k);
    FilesStored(v, w, cb, n, k, s);
    WriteConserves(v, vr, w, cb, chains, k, cs);
  }

  lemma FilesStored(v: Volume, w: Volume, cb: nat, n: Name, k: nat, s: seq<Byte>)
    requires Shaped(v, cb) && Shaped(w, cb) && TargetAt(v.root, n, k) && k < |w.root|
    requires IsFile(w.root[k]) && NameOf(w.root[k]) == n && Content(w, cb, w.root[k]) == s
    ensures FilesAfter(v, w, cb, k) == Files(v, cb)[n := s]
  {
    hide Walk, Files;
    assert IsFile(v.root[k]) ==> NameOf(v.root[k]) == n;
    assert (Files(v, cb) - {n})[n := s] == Files(v, cb)[n := s];
  }

  lemma {:induction false} WalkSame(v: Volume, w: Volume, cb: nat, c: nat, n: nat)
    requires Shaped(v, cb) && Shaped(w, cb) && v.fat == w.fat && v.data == w.data
    ensures Walk(v, cb, c, n) == Walk(w, cb, c, n)
    decreases n
  {
    if n > cb && Followed(c) && c < |v.data| {
      WalkSame(v, w, cb, v.fat[c], n - cb);
    }
  }

  /** A slot's chain and content do not depend on the directory it is in. */
  lemma SameTables(v: Volume, w: Volume, cb: nat, t: Slot)
    requires Shaped(v, cb) && v.fat == w.fat && v.data == w.data
    ensures Shaped(w, cb) && Content(v, cb, t) == Content(w, cb, t)
    ensures forall cs :: SlotOwns(v, cb, t, cs) ==> SlotOwns(w, cb, t, cs)
  {
    WalkSame(v, w, cb, FirstCluster(t), FileSize(t));
  }

  lemma WriteCompletedOwns(v: Volume, vr: Volume, v1: Volume, w: Volume, cb: nat, chains: seq<seq<nat>>, k: nat,
                           s: seq<Byte>, cs: seq<nat>, t: Slot)
    requires k < |chains| && OwnsBut(vr, cb, chains[k := []], k) && Building(vr, v1, cb, s, cs)
    requires w == v1.(root := vr.root[k := t]) && k < |vr.root|
    requires Taken(vr, w, k, cs) && SlotOwns(v1, cb, t, cs)
    ensures Owns(w, cb, chains[k := cs])
  {
    SameTables(v1, w, cb, t);
    TakenOwns(vr, w, cb, chains[k := []], k, cs);
    assert chains[k := []][k := cs] == chains[k := cs];
  }

  lemma WriteConserves(v: Volume, vr: Volume, w: Volume, cb: nat, chains: seq<seq<nat>>, k: nat, cs: seq<nat>)
    requires k < |chains| && Owns(v, cb, chains) && Owns(w, cb, chains[k := cs])
    requires |vr.fat| == |v.fat| && vr.data == v.data && Taken(vr, w, k, cs)
    requires forall x :: 0 <= x < |v.fat| ==> vr.fat[x] == if x in chains[k] then 0 else v.fat[x]
    ensures |FreeClusters(w)| == |FreeClusters(v)| + |chains[k]| - |cs|
    ensures LostClusters(w, chains[k := cs]) == LostClusters(v, chains)
  {
    ClustersConserved(v, w, cb, chains, k, cs);
  }

  // ----- a name that starts with 0xE5

  /** The clusters cs, which the search could find, are taken and belong to no slot. */
  ghost predicate Orphaned(v: Volume, w: Volume, chains: seq<seq<nat>>, cs: seq<nat>) {
    && NoDup(cs) && Elements(cs) <= Room(v)
    && LostClusters(w, chains) == LostClusters(v, chains) + Elements(cs)
    && FreeClusters(w) == FreeClusters(v) - Elements(cs)
  }

  /** Written under a name whose first byte is 0xE5 a file is stored but reads as deleted: no file
      changes, and its clusters belong to nobody. */
  lemma WriteHidden(v: Volume, v1: Volume, w: Volume, cb: nat, chains: seq<seq<nat>>, n: Name, k: nat,
                    s: seq<Byte>, cs: seq<nat>)
    requires Owns(v, cb, chains) && DirectoryOk(v.root) && TargetAt(v.root, n, k) && n[0] == 0xE5
    requires Building(Released(v, n), v1, cb, s, cs) && cs != []
    requires |s| < 0x1_0000_0000 && cs[0] < 0x1_0000
    requires w == v1.(root := v.root[k := Filled(v.root[k], n, cs[0], |s|)])
    ensures Owns(w, cb, chains) && DirectoryOk(w.root) && Files(w, cb) == Files(v, cb)
    ensures Orphaned(v, w, chains, cs)
  {
    hide FilledUp, Filled, Walk, Freed, Orphaned;
    var t := Filled(v.root[k], n, cs[0], |s|);
    assert t[0] == NameOf(t)[0] == 0xE5;
    forall j ensures !NamedAt(v.root, n, j) {
    }
    ReleasedAt(v, cb, chains, n, k);
    StoredOnlySlot(v, v, w, cb, chains, k, s, cs, t, v1);
    assert SlotOwns(v, cb, v.root[k], chains[k]);
    SameTables(v1, w, cb, t);
    forall j | 0 <= j < |chains| ensures SlotOwns(w, cb, w.root[j], chains[j]) {
      if j != k { TakenKeeps(v, w, cb, chains[k := []], k, cs, j); }
    }
    TargetAlone(v.root, n, k);
    FilledDirectory(v.root, k, t);
    FilesChanged(v, w, cb, chains, k);
    assert FilesAfter(v, w, cb, k) == Files(v, cb);
    HiddenLost(v, v1, w, cb, chains, s, cs);
  }

  lemma HiddenLost(v: Volume, v1: Volume, w: Volume, cb: nat, chains: seq<seq<nat>>, s: seq<Byte>, cs: seq<nat>)
    requires Building(v, v1, cb, s, cs) && Owns(v, cb, chains) && w.fat == v1.fat && w.data == v1.data
    ensures Orphaned(v, w, chains, cs)
  {
    LinkedMarked(v.fat, v1.fat, cs);
    forall c | c in cs ensures c in LostClusters(w, chains) && c in Room(v) {
      var i :| 0 <= i < |cs| && cs[i] == c;
      assert Allocatable(v, c);
      forall j | 0 <= j < |chains| ensures c !in chains[j] {
        OwnedAllocated(v, cb, chains, j);
      }
    }
  }

  // ----- failure

  lemma KeptFiles(v: Volume, w: Volume, cb: nat, chains: seq<seq<nat>>)
    requires Owns(v, cb, chains) && DirectoryOk(v.root) && UsedKept(v, w) && Shaped(w, cb)
    ensures Owns(w, cb, chains) && Files(w, cb) == Files(v, cb)
  {
    forall j | 0 <= j < |chains|
      ensures SlotOwns(w, cb, w.root[j], chains[j])
      ensures Named(v.root[j]) ==> Content(w, cb, v.root[j]) == Content(v, cb, v.root[j])
    {
      assert SlotOwns(v, cb, v.root[j], chains[j]);
      OwnedAllocated(v, cb, chains, j);
      if Named(v.root[j]) {
        ChainFramed(v, w, FirstCluster(v.root[j]), chains[j]);
        WalkFramed(v, w, cb, FirstCluster(v.root[j]), FileSize(v.root[j]), chains[j]);
      }
    }
  }

  /** An entry whose clusters have been released and not replaced owns nothing that is a chain. */
  lemma ReleasedBroken(v: Volume, w: Volume, cb: nat, chains: seq<seq<nat>>, k: nat, chains': seq<seq<nat>>)
    requires Owns(v, cb, chains) && k < |v.root| && Named(v.root[k]) && chains[k] != []
    requires w.root == v.root && w.fat == Freed(v.fat, FirstCluster(v.root[k]))
    ensures !Owns(w, cb, chains')
  {
    assert SlotOwns(v, cb, v.root[k], chains[k]);
    var c := FirstCluster(v.root[k]);
    FreedChain(v, c, chains[k], c);
    assert w.fat[c] == 0 && Followed(c);
    if Owns(w, cb, chains') {
      assert SlotOwns(w, cb, w.root[k], chains'[k]);
      ChainAllocated(w, c, chains'[k], c);
      assert false;
    }
  }

  /** There is an entry of that name, and it has clusters. */
  ghost predicate Occupied(v: Volume, n: Name) {
    HasName(v.root, n) && Followed(FirstCluster(v.root[Match(v.root, n)]))
  }

  /** There is, and the first of its clusters is marked as free: what only a failed overwrite leaves. */
  ghost predicate Cleared(v: Volume, n: Name) {
    Occupied(v, n) &&
      var c := FirstCluster(v.root[Match(v.root, n)]); c < |v.fat| && v.fat[c] == 0
  }

  lemma OccupiedOwns(v: Volume, cb: nat, chains: seq<seq<nat>>, n: Name)
    requires Owns(v, cb, chains) && HasName(v.root, n)
    ensures Occupied(v, n) <==> chains[Match(v.root, n)] != []
    ensures Occupied(v, n) ==> FirstCluster(v.root[Match(v.root, n)]) < |v.fat|
  {
    assert SlotOwns(v, cb, v.root[Match(v.root, n)], chains[Match(v.root, n)]);
  }

  lemma SoundNotCleared(v: Volume, cb: nat, chains: seq<seq<nat>>, n: Name)
    requires Owns(v, cb, chains)
    ensures !Cleared(v, n)
  {
    if Occupied(v, n) {
      OccupiedOwns(v, cb, chains, n);
      var k := Match(v.root, n);
      assert SlotOwns(v, cb, v.root[k], chains[k]);
      ChainAllocated(v, FirstCluster(v.root[k]), chains[k], chains[k][0]);
    }
  }

  lemma FailedCleared(v: Volume, w: Volume, cb: nat, chains: seq<seq<nat>>, n: Name)
    requires Owns(v, cb, chains) && Occupied(v, n) && UsedKept(Released(v, n), w)
    ensures Cleared(w, n)
  {
    OccupiedOwns(v, cb, chains, n);
    var k := Match(v.root, n);
    assert SlotOwns(v, cb, v.root[k], chains[k]);
    FreedChain(v, FirstCluster(v.root[k]), chains[k], FirstCluster(v.root[k]));
  }

  /** A write that finds no room: the volume stays sound, with every file as it was, if and only if
      no entry of that name had clusters to give up. */
  lemma WriteFailed(v: Volume, w: Volume, cb: nat, chains: seq<seq<nat>>, n: Name)
    requires Owns(v, cb, chains) && DirectoryOk(v.root) && UsedKept(Released(v, n), w) && Shaped(w, cb)
    ensures (exists chains' :: Owns(w, cb, chains')) <==> !Occupied(v, n)
    ensures !Occupied(v, n) ==> Owns(w, cb, chains) && w.fat == v.fat && Files(w, cb) == Files(v, cb)
  {
    if HasName(v.root, n) {
      OccupiedOwns(v, cb, chains, n);
    }
    if HasName(v.root, n) && chains[Match(v.root, n)] != [] {
      forall chains' ensures !Owns(w, cb, chains') {
        ReleasedBroken(v, w, cb, chains, Match(v.root, n), chains');
      }
    } else {
      if HasName(v.root, n) {
        assert SlotOwns(v, cb, v.root[Match(v.root, n)], chains[Match(v.root, n)]);
      }
      assert Released(v, n) == v;
      KeptFiles(v, w, cb, chains);
    }
  }

  // ----- deleting

  /** A completed delete: one name fewer, every other file unchanged, its clusters free again. */
  lemma DeleteCompleted(v: Volume, w: Volume, cb: nat, chains: seq<seq<nat>>, k: nat)
    requires Owns(v, cb, chains) && DirectoryOk(v.root) && k < |v.root| && IsFile(v.root[k])
    requires w == v.(fat := Freed(v.fat, FirstCluster(v.root[k])), root := v.root[k := v.root[k][0 := 0xE5]])
    ensures Owns(w, cb, chains[k := []]) && DirectoryOk(w.root)
    ensures Files(w, cb) == Files(v, cb) - {NameOf(v.root[k])}
    ensures |FreeClusters(w)| == |FreeClusters(v)| + |chains[k]|
    ensures LostClusters(w, chains[k := []]) == LostClusters(v, chains)
  {
    hide Walk, Freed;
    ReleasedOwns(v, cb, chains, k);
    var vr := v.(fat := Freed(v.fat, FirstCluster(v.root[k])));
    SameTables(vr, w, cb, w.root[k]);
    TakenOwns(vr, w, cb, chains[k := []], k, []);
    assert chains[k := []][k := []] == chains[k := []];
    FilledDirectory(v.root, k, w.root[k]);
    FilesChanged(v, w, cb, chains, k);
    ClustersConserved(v, w, cb, chains, k, []);
  }

  lemma OwnedStays(v: Volume, cb: nat, chains: seq<seq<nat>>, k: nat)
    requires Owns(v, cb, chains) && k < |v.root| && Named(v.root[k])
    ensures StaysInTable(v.fat, FirstCluster(v.root[k]))
  {
    assert SlotOwns(v, cb, v.root[k], chains[k]);
    ChainStays(v, FirstCluster(v.root[k]), chains[k]);
  }

  lemma MatchUnique(root: seq<Slot>, n: Name, k: nat)
    requires DirectoryOk(root) && HasName(root, n) && TargetAt(root, n, k)
    ensures NamedAt(root, n, k) && Match(root, n) == k
  {
  }

  lemma TargetExists(root: seq<Slot>, n: Name, k: nat)
    requires TargetAt(root, n, k)
    ensures HasTarget(root, n)
  {
  }

  lemma NothingUsed(v: Volume)
    ensures UsedKept(v, v)
  {
  }

  lemma NothingReleased(v: Volume, n: Name)
    requires !HasName(v.root, n)
    ensures Released(v, n) == v
  {
  }

  lemma BuildingFirst(v0: Volume, v: Volume, cb: nat, s: seq<Byte>, cs: seq<nat>)
    requires Building(v0, v, cb, s, cs) && cs != []
    ensures cs[0] < 0x1_0000 && v.root == v0.root
  {
    assert Allocatable(v0, cs[0]);
  }

  /** Which entry a write uses: the one with the name, and without one the first that is unused (0x00) or
      deleted (0xE5). */
  lemma TargetMeans(root: seq<Slot>, n: Name, k: nat)
    requires TargetAt(root, n, k)
    ensures k < |root|
    ensures var named := exists j :: 0 <= j < |root| && root[j][0] != 0 && root[j][0] != 0xE5 && root[j][..11] == n;
      && (named ==> root[k][0] != 0 && root[k][0] != 0xE5 && root[k][..11] == n)
      && (!named ==> root[k][0] == 0 || root[k][0] == 0xE5)
      && (!named ==> forall j :: 0 <= j < k ==> root[j][0] != 0 && root[j][0] != 0xE5)
  {
    if j :| 0 <= j < |root| && root[j][0] != 0 && root[j][0] != 0xE5 && root[j][..11] == n {
      assert NamedAt(root, n, j);
    }
    if j :| NamedAt(root, n, j) {
      assert root[j][..11] == n;
    }
  }
}
