/** The files of a volume: which slots and chains make them up, and how replacing one slot and its
    chain changes the map from names to contents. */
module Fat16Files {
  import opened Bytes
  import opened Fat16Layout
  import opened Fat16Chains

  /** Eleven bytes, none of them NUL: a formatted name. */
  type Name = s: seq<Byte> | |s| == 11 && 0 !in s witness seq(11, _ => 0x20)

  function NameOf(s: Slot): (n: seq<Byte>)
    ensures |n| == 11
  {
    s[..11]
  }

  predicate Live(s: Slot) { s[0] != 0 && s[0] != 0xE5 }

  predicate IsDir(s: Slot) { s[11] / 0x10 % 2 == 1 }

  /** A live entry whose name some request can spell. (Long-name entries hold NUL bytes.) */
  predicate Named(s: Slot) { Live(s) && 0 !in NameOf(s) }

  predicate IsFile(s: Slot) { Named(s) && !IsDir(s) }

  function FirstCluster(s: Slot): nat { Le16(s, 26) }

  function FileSize(s: Slot): nat { Le32(s, 28) }

  /** The entry written for a stored file; the bytes the driver does not set keep their value. */
  function Filled(s: Slot, n: Name, first: nat, size: nat): (t: Slot)
    requires first < 0x1_0000 && size < 0x1_0000_0000
    ensures NameOf(t) == n && !IsDir(t) && FirstCluster(t) == first && FileSize(t) == size
    ensures t[11] == 0x20 && forall i :: 12 <= i < 26 ==> t[i] == s[i]
  {
    var t0: Slot := n + [0x20] + s[12..];
    var t1 := Put16(t0, 26, first);
    var t := Put32(t1, 28, size);
    assert NameOf(t) == n;
    assert Le16(t, 26) == Le16(t1, 26);
    t
  }

  /** Every entry after the first 0x00 is 0x00, and names are unique. */
  ghost predicate DirectoryOk(root: seq<Slot>) {
    && (forall i, j :: 0 <= i < j < |root| && root[i][0] == 0 ==> root[j][0] == 0)
    && (forall i, j :: 0 <= i < j < |root| && Named(root[i]) && Named(root[j]) ==> NameOf(root[i]) != NameOf(root[j]))
  }

  /** len clusters of cb bytes are what a file of this size takes. */
  predicate Fits(size: nat, len: nat, cb: nat) {
    if size == 0 then len <= 1 else size <= Capacity(len, cb) < size + cb
  }

  ghost predicate SlotOwns(v: Volume, cb: nat, s: Slot, cs: seq<nat>) {
    if Named(s) then
      IsChain(v, FirstCluster(s), cs) && NoDup(cs) && (!IsDir(s) ==> Fits(FileSize(s), |cs|, cb))
    else cs == []
  }

  ghost predicate Disjoint(chains: seq<seq<nat>>) {
    forall j, k, x :: 0 <= j < |chains| && 0 <= k < |chains| && j != k && x in chains[j] ==> x !in chains[k]
  }

  /** Slot k owns the clusters chains[k], for every slot but `but` (which owns none). */
  ghost predicate OwnsBut(v: Volume, cb: nat, chains: seq<seq<nat>>, but: nat) {
    && Shaped(v, cb) && |chains| == |v.root|
    && (forall k :: 0 <= k < |chains| && k != but ==> SlotOwns(v, cb, v.root[k], chains[k]))
    && (but < |chains| ==> chains[but] == [])
    && Disjoint(chains)
  }

  /** The volume invariant: chains are proper, of the right length, and pairwise disjoint. */
  ghost predicate Owns(v: Volume, cb: nat, chains: seq<seq<nat>>) {
    OwnsBut(v, cb, chains, |chains|)
  }

  /** The disk alone determines the chains. */
  lemma OwnsUnique(v: Volume, cb: nat, chains: seq<seq<nat>>, chains': seq<seq<nat>>)
    requires Owns(v, cb, chains) && Owns(v, cb, chains')
    ensures chains == chains'
  {
    forall k | 0 <= k < |chains| ensures chains[k] == chains'[k] {
      assert SlotOwns(v, cb, v.root[k], chains[k]) && SlotOwns(v, cb, v.root[k], chains'[k]);
      if Named(v.root[k]) {
        ChainUnique(v, FirstCluster(v.root[k]), chains[k], chains'[k]);
      }
    }
  }

  // ----- the map from names to contents

  ghost function Content(v: Volume, cb: nat, s: Slot): seq<Byte>
    requires Shaped(v, cb)
  {
    Walk(v, cb, FirstCluster(s), FileSize(s))
  }

  ghost predicate FileAt(root: seq<Slot>, n: seq<Byte>, k: int) {
    0 <= k < |root| && IsFile(root[k]) && NameOf(root[k]) == n
  }

  ghost function FileNames(root: seq<Slot>): set<seq<Byte>> {
    set k | 0 <= k < |root| && IsFile(root[k]) :: NameOf(root[k])
  }

  lemma NoFile(root: seq<Slot>, n: seq<Byte>)
    requires forall k :: 0 <= k < |root| ==> !FileAt(root, n, k)
    ensures n !in FileNames(root)
  {
    forall k | 0 <= k < |root| && IsFile(root[k]) ensures NameOf(root[k]) != n {
      assert !FileAt(root, n, k);
    }
  }

  ghost function SlotOfFile(root: seq<Slot>, n: seq<Byte>): (k: int)
    requires n in FileNames(root)
    ensures FileAt(root, n, k)
  {
    assert exists k :: FileAt(root, n, k) by {
      var k :| 0 <= k < |root| && IsFile(root[k]) && NameOf(root[k]) == n;
      assert FileAt(root, n, k);
    }
    var k :| FileAt(root, n, k);
    k
  }

  ghost function Files(v: Volume, cb: nat): map<seq<Byte>, seq<Byte>>
    requires Shaped(v, cb)
  {
    map n | n in FileNames(v.root) :: Content(v, cb, v.root[SlotOfFile(v.root, n)])
  }

  lemma FilesNamed(v: Volume, cb: nat)
    requires Shaped(v, cb)
    ensures Files(v, cb).Keys == FileNames(v.root)
  {
  }

  lemma FileFound(v: Volume, cb: nat, k: nat)
    requires Shaped(v, cb) && DirectoryOk(v.root) && k < |v.root| && IsFile(v.root[k])
    ensures NameOf(v.root[k]) in Files(v, cb) && Files(v, cb)[NameOf(v.root[k])] == Content(v, cb, v.root[k])
  {
    var n := NameOf(v.root[k]);
    assert n in FileNames(v.root);
    var j := SlotOfFile(v.root, n);
    assert FileAt(v.root, n, j);
  }

  /** Every file's content has the length its entry records. */
  lemma ContentLength(v: Volume, cb: nat, chains: seq<seq<nat>>, k: nat)
    requires Owns(v, cb, chains) && k < |v.root| && IsFile(v.root[k])
    ensures |Content(v, cb, v.root[k])| == FileSize(v.root[k])
  {
    assert SlotOwns(v, cb, v.root[k], chains[k]);
    if FileSize(v.root[k]) > 0 {
      WalkLength(v, cb, FirstCluster(v.root[k]), chains[k], FileSize(v.root[k]));
    }
  }

  /** w differs from v only at slot k, and on no cluster that another slot owns. */
  ghost predicate OnlySlot(v: Volume, w: Volume, chains: seq<seq<nat>>, k: nat) {
    && |w.fat| == |v.fat| && |w.data| == |v.data| && |w.root| == |v.root| == |chains| && k < |v.root|
    && (forall j :: 0 <= j < |v.root| && j != k ==> w.root[j] == v.root[j])
    && (forall j, x :: 0 <= j < |chains| && j != k && x in chains[j] && x < |v.data| && x < |v.fat|
          ==> w.fat[x] == v.fat[x] && w.data[x] == v.data[x])
  }

  /** Every other file keeps its bytes. */
  lemma OtherFileKept(v: Volume, w: Volume, cb: nat, chains: seq<seq<nat>>, k: nat, j: nat)
    requires Owns(v, cb, chains) && Shaped(w, cb) && OnlySlot(v, w, chains, k)
    requires j < |v.root| && j != k && Named(v.root[j])
    ensures Content(w, cb, w.root[j]) == Content(v, cb, v.root[j])
  {
    assert SlotOwns(v, cb, v.root[j], chains[j]);
    WalkFramed(v, w, cb, FirstCluster(v.root[j]), FileSize(v.root[j]), chains[j]);
  }

  /** The files once slot k has been rewritten: its old file goes, its new one (if any) comes. */
  ghost function FilesAfter(v: Volume, w: Volume, cb: nat, k: nat): map<seq<Byte>, seq<Byte>>
    requires Shaped(v, cb) && Shaped(w, cb) && k < |v.root| && k < |w.root|
  {
    var rest := if IsFile(v.root[k]) then Files(v, cb) - {NameOf(v.root[k])} else Files(v, cb);
    if IsFile(w.root[k]) then rest[NameOf(w.root[k]) := Content(w, cb, w.root[k])] else rest
  }

  /** Slots other than k are the same and their files read the same. */
  ghost predicate OthersKept(v: Volume, w: Volume, cb: nat, k: nat) {
    && Shaped(v, cb) && Shaped(w, cb) && |w.root| == |v.root| && k < |v.root|
    && (forall j :: 0 <= j < |v.root| && j != k ==> w.root[j] == v.root[j])
    && (forall j :: 0 <= j < |v.root| && j != k && IsFile(v.root[j]) ==>
          Content(w, cb, v.root[j]) == Content(v, cb, v.root[j]))
  }

  lemma NamesDiffer(root: seq<Slot>, j: nat, k: nat)
    requires DirectoryOk(root) && j < |root| && k < |root| && j != k && IsFile(root[j]) && IsFile(root[k])
    ensures NameOf(root[j]) != NameOf(root[k])
  {
  }

  lemma FileCame(v: Volume, w: Volume, cb: nat, k: nat, n: seq<Byte>)
    requires OthersKept(v, w, cb, k) && DirectoryOk(v.root) && DirectoryOk(w.root) && n in Files(w, cb)
    ensures n in FilesAfter(v, w, cb, k) && FilesAfter(v, w, cb, k)[n] == Files(w, cb)[n]
  {
    hide Walk, Shaped, NameOf, Live;
    var j := SlotOfFile(w.root, n);
    if j != k {
      FileFound(v, cb, j);
      if IsFile(v.root[k]) { NamesDiffer(v.root, j, k); }
      if IsFile(w.root[k]) { NamesDiffer(w.root, j, k); }
      assert Files(w, cb)[n] == Content(w, cb, w.root[j]) == Files(v, cb)[n];
    } else {
      assert Files(w, cb)[n] == Content(w, cb, w.root[k]);
    }
  }

  lemma FileStayed(v: Volume, w: Volume, cb: nat, k: nat, n: seq<Byte>)
    requires OthersKept(v, w, cb, k) && DirectoryOk(v.root) && DirectoryOk(w.root) && n in FilesAfter(v, w, cb, k)
    ensures n in Files(w, cb)
  {
    if IsFile(w.root[k]) && n == NameOf(w.root[k]) {
      FileFound(w, cb, k);
    } else {
      var j := SlotOfFile(v.root, n);
      FileFound(w, cb, j);
    }
  }

  lemma FilesChanged(v: Volume, w: Volume, cb: nat, chains: seq<seq<nat>>, k: nat)
    requires Owns(v, cb, chains) && Shaped(w, cb) && OnlySlot(v, w, chains, k)
    requires DirectoryOk(v.root) && DirectoryOk(w.root)
    ensures Files(w, cb) == FilesAfter(v, w, cb, k)
  {
    forall j | 0 <= j < |v.root| && j != k && IsFile(v.root[j])
      ensures Content(w, cb, v.root[j]) == Content(v, cb, v.root[j])
    {
      OtherFileKept(v, w, cb, chains, k, j);
    }
    FilesPointwise(v, w, cb, k);
  }

  lemma FilesPointwise(v: Volume, w: Volume, cb: nat, k: nat)
    requires OthersKept(v, w, cb, k) && DirectoryOk(v.root) && DirectoryOk(w.root)
    ensures Files(w, cb) == FilesAfter(v, w, cb, k)
  {
    hide Walk, Shaped, NameOf, Live, Files, FilesAfter, DirectoryOk;
    var m, m' := FilesAfter(v, w, cb, k), Files(w, cb);
    forall n | n in m' ensures n in m && m[n] == m'[n] {
      FileCame(v, w, cb, k, n);
    }
    forall n | n in m ensures n in m' {
      FileStayed(v, w, cb, k, n);
    }
  }

  // ----- releasing and taking clusters

  lemma ChainAllocated(v: Volume, c: nat, cs: seq<nat>, x: nat)
    requires IsChain(v, c, cs) && x in cs
    ensures 2 <= x < |v.data| && x < |v.fat| && v.fat[x] != 0
  {
    var i :| 0 <= i < |cs| && cs[i] == x;
    if i < |cs| - 1 {
      assert v.fat[cs[i]] == cs[i + 1];
    }
  }

  /** Freeing slot k's chain leaves every other slot's chain in place. */
  lemma ReleasedOwns(v: Volume, cb: nat, chains: seq<seq<nat>>, k: nat)
    requires Owns(v, cb, chains) && k < |v.root| && Named(v.root[k])
    ensures var w := v.(fat := Freed(v.fat, FirstCluster(v.root[k])));
            OwnsBut(w, cb, chains[k := []], k) && OnlySlot(v, w, chains, k)
            && forall x :: 0 <= x < |v.fat| ==> w.fat[x] == if x in chains[k] then 0 else v.fat[x]
  {
    var w := v.(fat := Freed(v.fat, FirstCluster(v.root[k])));
    assert SlotOwns(v, cb, v.root[k], chains[k]);
    forall x | 0 <= x < |v.fat| ensures w.fat[x] == if x in chains[k] then 0 else v.fat[x] {
      FreedChain(v, FirstCluster(v.root[k]), chains[k], x);
    }
    forall j | 0 <= j < |chains| && j != k ensures SlotOwns(w, cb, w.root[j], chains[j]) {
      assert SlotOwns(v, cb, v.root[j], chains[j]);
      if Named(v.root[j]) {
        forall x | x in chains[j] ensures w.fat[x] == v.fat[x] {
          ChainAllocated(v, FirstCluster(v.root[j]), chains[j], x);
        }
        ChainFramed(v, w, FirstCluster(v.root[j]), chains[j]);
      }
    }
  }

  /** w is v with the free clusters cs taken and slot k rewritten. */
  ghost predicate Taken(v: Volume, w: Volume, k: nat, cs: seq<nat>) {
    && |w.fat| == |v.fat| && |w.data| == |v.data| && |w.root| == |v.root| && k < |v.root|
    && (forall j :: 0 <= j < |v.root| && j != k ==> w.root[j] == v.root[j])
    && (forall i :: 0 <= i < |cs| ==> 2 <= cs[i] < |v.data| && cs[i] < |v.fat| && v.fat[cs[i]] == 0)
    && (forall x :: 0 <= x < |v.fat| && x !in cs ==> w.fat[x] == v.fat[x])
    && (forall x :: 0 <= x < |v.data| && x !in cs ==> w.data[x] == v.data[x])
  }

  /** Taking free clusters disturbs no slot's chain. */
  lemma TakenKeeps(v: Volume, w: Volume, cb: nat, chains: seq<seq<nat>>, k: nat, cs: seq<nat>, j: nat)
    requires OwnsBut(v, cb, chains, k) && Shaped(w, cb) && Taken(v, w, k, cs) && j < |chains| && j != k
    ensures SlotOwns(w, cb, w.root[j], chains[j]) && forall x :: x in chains[j] ==> x !in cs
  {
    assert SlotOwns(v, cb, v.root[j], chains[j]);
    if Named(v.root[j]) {
      forall x | x in chains[j] ensures x !in cs {
        ChainAllocated(v, FirstCluster(v.root[j]), chains[j], x);
      }
      ChainFramed(v, w, FirstCluster(v.root[j]), chains[j]);
    }
  }

  lemma TakenOwns(v: Volume, w: Volume, cb: nat, chains: seq<seq<nat>>, k: nat, cs: seq<nat>)
    requires OwnsBut(v, cb, chains, k) && Shaped(w, cb) && Taken(v, w, k, cs)
    requires SlotOwns(w, cb, w.root[k], cs)
    ensures Owns(w, cb, chains[k := cs])
  {
    forall j | 0 <= j < |chains| && j != k
      ensures SlotOwns(w, cb, w.root[j], chains[j]) && forall x :: x in chains[j] ==> x !in cs
    {
      TakenKeeps(v, w, cb, chains, k, cs, j);
    }
  }

  // ----- no cluster is lost

  ghost function Elements(cs: seq<nat>): set<nat> {
    set x | x in cs
  }

  lemma {:induction false} ElementsCount(cs: seq<nat>)
    requires NoDup(cs)
    ensures |Elements(cs)| == |cs|
  {
    if cs != [] {
      var n := |cs| - 1;
      ElementsCount(cs[..n]);
      assert Elements(cs) == Elements(cs[..n]) + {cs[n]};
    }
  }

  ghost function FreeClusters(v: Volume): set<nat> {
    set c | 2 <= c < |v.data| && c < |v.fat| && v.fat[c] == 0
  }

  /** Allocated clusters that no slot owns. */
  ghost function LostClusters(v: Volume, chains: seq<seq<nat>>): set<nat> {
    set c | 2 <= c < |v.data| && c < |v.fat| && v.fat[c] != 0 && forall k :: 0 <= k < |chains| ==> c !in chains[k]
  }

  /** Swapping slot k's chain for cs frees the one and takes the other; nothing is lost or found. */
  lemma ClustersConserved(v: Volume, w: Volume, cb: nat, chains: seq<seq<nat>>, k: nat, cs: seq<nat>)
    requires k < |chains| && Owns(v, cb, chains) && Owns(w, cb, chains[k := cs])
    requires |v.fat| == |w.fat| && |v.data| == |w.data|
    requires forall x :: 0 <= x < |v.fat| && x !in cs ==> w.fat[x] == if x in chains[k] then 0 else v.fat[x]
    requires forall x :: x in cs && x in chains[k] ==> x < |v.fat|
    requires forall x :: x in cs && x !in chains[k] ==> x < |v.fat| && v.fat[x] == 0
    ensures FreeClusters(w) == FreeClusters(v) + Elements(chains[k]) - Elements(cs)
    ensures |FreeClusters(w)| == |FreeClusters(v)| + |chains[k]| - |cs|
    ensures LostClusters(w, chains[k := cs]) == LostClusters(v, chains)
  {
    var chains' := chains[k := cs];
    OwnedAllocated(v, cb, chains, k);
    OwnedAllocated(w, cb, chains', k);
    assert chains'[k] == cs;
    var a, b := Elements(chains[k]), Elements(cs);
    assert FreeClusters(w) == FreeClusters(v) + a - b;
    assert b <= FreeClusters(v) + a && FreeClusters(v) !! a;
    assert |FreeClusters(v) + a| == |FreeClusters(v)| + |a|;
    assert |FreeClusters(v) + a - b| == |FreeClusters(v) + a| - |b|;
    ElementsCount(chains[k]);
    ElementsCount(cs);
    LostKept(v, w, chains, k, cs);
  }

  lemma LostKept(v: Volume, w: Volume, chains: seq<seq<nat>>, k: nat, cs: seq<nat>)
    requires k < |chains| && |v.fat| == |w.fat| && |v.data| == |w.data|
    requires forall x :: 0 <= x < |v.fat| && x !in cs ==> w.fat[x] == if x in chains[k] then 0 else v.fat[x]
    requires forall x :: x in cs && x !in chains[k] ==> x < |v.fat| && v.fat[x] == 0
    ensures LostClusters(w, chains[k := cs]) == LostClusters(v, chains)
  {
    var chains' := chains[k := cs];
    forall c | c in LostClusters(w, chains') ensures c in LostClusters(v, chains) {
      assert c !in chains'[k];
      forall j | 0 <= j < |chains| ensures c !in chains[j] {
        if j != k { assert c !in chains'[j]; }
      }
    }
    forall c | c in LostClusters(v, chains) ensures c in LostClusters(w, chains') {
      assert c !in chains[k];
      forall j | 0 <= j < |chains'| ensures c !in chains'[j] {
        if j != k { assert c !in chains[j]; }
      }
    }
  }

  lemma OwnedAllocated(v: Volume, cb: nat, chains: seq<seq<nat>>, k: nat)
    requires Owns(v, cb, chains) && k < |chains|
    ensures NoDup(chains[k])
    ensures forall x :: x in chains[k] ==> 2 <= x < |v.data| && x < |v.fat| && v.fat[x] != 0
  {
    assert SlotOwns(v, cb, v.root[k], chains[k]);
    if Named(v.root[k]) {
      forall x | x in chains[k] ensures 2 <= x < |v.data| && x < |v.fat| && v.fat[x] != 0 {
        ChainAllocated(v, FirstCluster(v.root[k]), chains[k], x);
      }
    }
  }

  /** A freshly formatted volume, whose root directory is all zeros, is sound and has no files. */
  lemma FormattedVolume(v: Volume, cb: nat)
    requires Shaped(v, cb) && forall k :: 0 <= k < |v.root| ==> v.root[k][0] == 0
    ensures DirectoryOk(v.root) && Owns(v, cb, seq(|v.root|, _ => [])) && Files(v, cb) == map[]
  {
    forall n ensures n !in FileNames(v.root) {
      NoFile(v.root, n);
    }
    assert Files(v, cb).Keys == {};
  }

  // ----- an entry byte by byte

  /** The fields of a directory entry, from its bytes: the name, the directory bit of the attribute, the
      first cluster, the size; a first byte of 0x00 or 0xE5 means that there is no entry. */
  lemma EntryFields(s: Slot)
    ensures NameOf(s) == s[0..11]
    ensures IsDir(s) <==> s[11] % 0x20 >= 0x10
    ensures FirstCluster(s) == LittleEndian(s, 26, 2) && FileSize(s) == LittleEndian(s, 28, 4)
    ensures Named(s) <==> s[0] != 0x00 && s[0] != 0xE5 && forall i :: 0 <= i < 11 ==> s[i] != 0
    ensures IsFile(s) <==> Named(s) && !IsDir(s)
  {
    hide LittleEndian;
    LoadsLittleEndian(s, 26);
    LoadsLittleEndian(s, 28);
  }
}
