/** The write loop on volumes: clusters are taken one at a time, linked and filled; the loop either
    completes a chain for the file or is rolled back. */
module Fat16Store {
  import opened Bytes
  import opened Fat16Layout
  import opened Fat16Chains
  import opened Fat16Files

  /** The allocator looks at clusters below this one only; the last two clusters of a volume are
      never handed out. */
  function AllocLimit(clusters: nat): nat {
    if clusters < 0xFFF0 then clusters else 0xFFF0
  }

  ghost predicate Allocatable(v: Volume, c: nat) {
    2 <= c < AllocLimit(if |v.data| >= 2 then |v.data| - 2 else 0) && c < |v.fat| && v.fat[c] == 0
  }

  ghost function Room(v: Volume): set<nat> {
    set c | 2 <= c < |v.fat| && Allocatable(v, c)
  }

  /** n clusters hold a file of this size; an empty file still takes one. */
  predicate HasRoom(n: nat, size: nat, cb: nat) {
    n >= 1 && size <= Capacity(n, cb)
  }

  /** The table once the clusters cs have been taken and linked in order, the last one marked. */
  ghost predicate LinkedUp(fat0: seq<nat>, fat: seq<nat>, cs: seq<nat>) {
    && |fat| == |fat0| && NoDup(cs)
    && (forall i :: 0 <= i < |cs| ==> 2 <= cs[i] < |fat| && fat0[cs[i]] == 0)
    && (forall x :: 0 <= x < |fat| && x !in cs ==> fat[x] == fat0[x])
    && (forall i :: 0 <= i < |cs| - 1 ==> fat[cs[i]] == cs[i + 1])
    && (cs != [] ==> fat[cs[|cs| - 1]] == 0xFFFF)
  }

  /** The cluster contents once cs hold the first |cs| chunks of s. */
  ghost predicate FilledUp(data0: seq<seq<Byte>>, data: seq<seq<Byte>>, cb: nat, s: seq<Byte>, cs: seq<nat>) {
    && |data| == |data0|
    && (forall i :: 0 <= i < |cs| ==> cs[i] < |data|)
    && (forall x :: 0 <= x < |data| && x !in cs ==> data[x] == data0[x])
    && (forall i :: 0 <= i < |cs| ==> data[cs[i]] == Padded(s, Capacity(i, cb), cb))
  }

  /** The state of the write loop on volume v0 after the clusters cs. */
  ghost predicate Building(v0: Volume, v: Volume, cb: nat, s: seq<Byte>, cs: seq<nat>) {
    && Shaped(v0, cb) && Shaped(v, cb) && v.root == v0.root
    && (forall i :: 0 <= i < |cs| ==> Allocatable(v0, cs[i]))
    && LinkedUp(v0.fat, v.fat, cs) && FilledUp(v0.data, v.data, cb, s, cs)
  }

  lemma BuildingStart(v: Volume, cb: nat, s: seq<Byte>)
    requires Shaped(v, cb)
    ensures Building(v, v, cb, s, [])
  {
  }

  lemma BuildingChain(v0: Volume, v: Volume, cb: nat, s: seq<Byte>, cs: seq<nat>)
    requires Building(v0, v, cb, s, cs) && cs != []
    ensures IsChain(v, cs[0], cs)
  {
  }

  lemma LinkedMarked(fat0: seq<nat>, fat: seq<nat>, cs: seq<nat>)
    requires LinkedUp(fat0, fat, cs)
    ensures forall x :: x in cs ==> x < |fat| && fat[x] != 0
  {
    forall x | x in cs ensures x < |fat| && fat[x] != 0 {
      var i :| 0 <= i < |cs| && cs[i] == x;
      assert i < |cs| - 1 ==> fat[cs[i]] == cs[i + 1];
    }
  }

  /** The table after cluster c has been taken and linked behind the chain so far. */
  function Linked(fat: seq<nat>, cs: seq<nat>, c: nat): seq<nat>
    requires c < |fat| && (cs != [] ==> cs[|cs| - 1] < |fat|)
  {
    if cs == [] then fat[c := 0xFFFF] else fat[c := 0xFFFF][cs[|cs| - 1] := c]
  }

  lemma NoDupAppend(cs: seq<nat>, c: nat)
    requires NoDup(cs) && c !in cs
    ensures NoDup(cs + [c]) && forall x :: x in cs + [c] <==> x in cs || x == c
  {
  }

  /** Where the table differs after a step: at the new cluster and at the one before it. */
  lemma LinkedAt(fat: seq<nat>, cs: seq<nat>, c: nat, x: nat)
    requires c < |fat| && x < |fat| && (cs != [] ==> cs[|cs| - 1] < |fat| && cs[|cs| - 1] != c)
    ensures |Linked(fat, cs, c)| == |fat|
    ensures Linked(fat, cs, c)[x] ==
      if x == c then 0xFFFF else if cs != [] && x == cs[|cs| - 1] then c else fat[x]
  {
  }

  lemma LinkedStep(fat0: seq<nat>, fat: seq<nat>, cs: seq<nat>, c: nat)
    requires LinkedUp(fat0, fat, cs) && 2 <= c < |fat| && fat[c] == 0
    ensures LinkedUp(fat0, Linked(fat, cs, c), cs + [c])
  {
    hide Linked;
    LinkedMarked(fat0, fat, cs);
    var f, ds, n := Linked(fat, cs, c), cs + [c], |cs|;
    assert c !in cs;
    NoDupAppend(cs, c);
    LinkedAt(fat, cs, c, c);
    forall x | 0 <= x < |f| && x !in ds ensures f[x] == fat0[x] {
      LinkedAt(fat, cs, c, x);
    }
    forall i | 0 <= i < n ensures 2 <= ds[i] < |f| && fat0[ds[i]] == 0 && f[ds[i]] == ds[i + 1] {
      LinkedAt(fat, cs, c, cs[i]);
    }
  }

  lemma FilledStep(data0: seq<seq<Byte>>, data: seq<seq<Byte>>, cb: nat, s: seq<Byte>, cs: seq<nat>, c: nat)
    requires FilledUp(data0, data, cb, s, cs) && c < |data| && c !in cs
    ensures FilledUp(data0, data[c := Padded(s, Capacity(|cs|, cb), cb)], cb, s, cs + [c])
  {
    var ds := cs + [c];
    assert forall i :: 0 <= i < |cs| ==> ds[i] == cs[i] && cs[i] in cs;
    assert forall x :: x !in ds ==> x !in cs && x != c;
  }

  /** One turn of the loop: cluster c is taken, linked behind the last one and filled. */
  lemma BuildingStep(v0: Volume, v: Volume, cb: nat, s: seq<Byte>, cs: seq<nat>, c: nat)
    requires Building(v0, v, cb, s, cs) && c < |v.fat| && Allocatable(v, c)
    ensures Building(v0, v.(fat := Linked(v.fat, cs, c), data := v.data[c := Padded(s, Capacity(|cs|, cb), cb)]), cb, s, cs + [c])
  {
    LinkedMarked(v0.fat, v.fat, cs);
    LinkedStep(v0.fat, v.fat, cs, c);
    FilledStep(v0.data, v.data, cb, s, cs, c);
    assert Allocatable(v0, c);
  }

  /** Every cluster taken is one fewer to take. */
  lemma BuildingRoom(v0: Volume, v: Volume, cb: nat, s: seq<Byte>, cs: seq<nat>)
    requires Building(v0, v, cb, s, cs)
    ensures Room(v) == Room(v0) - Elements(cs)
    ensures |Room(v)| == |Room(v0)| - |cs|
  {
    LinkedMarked(v0.fat, v.fat, cs);
    assert Room(v) == Room(v0) - Elements(cs);
    assert Elements(cs) <= Room(v0);
    ElementsCount(cs);
  }

  /** Rolling back: freeing the chain built so far restores the table entry for entry. */
  lemma BuildingUndone(v0: Volume, v: Volume, cb: nat, s: seq<Byte>, cs: seq<nat>)
    requires Building(v0, v, cb, s, cs) && cs != []
    ensures Freed(v.fat, cs[0]) == v0.fat
  {
    BuildingChain(v0, v, cb, s, cs);
    forall x | 0 <= x < |v.fat| ensures Freed(v.fat, cs[0])[x] == v0.fat[x] {
      FreedChain(v, cs[0], cs, x);
      if x in cs {
        var i :| 0 <= i < |cs| && cs[i] == x;
        assert Allocatable(v0, cs[i]);
      }
    }
  }

  /** How much of the bytes n clusters have taken. */
  function Written(n: nat, cb: nat, size: nat): nat {
    if Capacity(n, cb) < size then Capacity(n, cb) else size
  }

  lemma WrittenFits(n: nat, cb: nat, size: nat)
    requires n >= 1 && Written(n, cb, size) == size
    requires if size == 0 then n == 1 else Capacity(n, cb) < size + cb
    ensures Fits(size, n, cb)
  {
  }

  /** The loop can stop with a chain of the right length only when there was room. */
  lemma EnoughMeansRoom(v0: Volume, v: Volume, cb: nat, s: seq<Byte>, cs: seq<nat>)
    requires Building(v0, v, cb, s, cs) && cs != [] && |s| <= Capacity(|cs|, cb)
    ensures HasRoom(|Room(v0)|, |s|, cb)
  {
    BuildingRoom(v0, v, cb, s, cs);
    CapacityMonotone(|cs|, |Room(v0)|, cb);
  }

  /** A finished chain owns the slot that names its first cluster. */
  lemma BuildingOwns(v0: Volume, v: Volume, cb: nat, s: seq<Byte>, cs: seq<nat>, slot: Slot, n: Name, size: nat)
    requires Building(v0, v, cb, s, cs) && cs != [] && Fits(|s|, |cs|, cb) && size == |s| < 0x1_0000_0000
    requires n[0] != 0xE5
    ensures cs[0] < 0x1_0000
    ensures var t := Filled(slot, n, cs[0], size); Named(t) && SlotOwns(v, cb, t, cs) && Content(v, cb, t) == s
  {
    BuildingChain(v0, v, cb, s, cs);
    var t := Filled(slot, n, cs[0], size);
    assert NameOf(t)[0] == n[0] != 0;
    assert HoldsChunks(v, cb, cs, s, 0);
    WalkReadsBack(v, cb, cs[0], cs, s, 0);
    assert s[0..] == s;
  }

  /** Filling an empty slot, or the slot that already has the name, keeps the directory in order. */
  lemma FilledDirectory(root: seq<Slot>, k: nat, t: Slot)
    requires DirectoryOk(root) && k < |root| && t[0] != 0
    requires Named(t) ==> forall j :: 0 <= j < |root| && j != k && Named(root[j]) ==> NameOf(root[j]) != NameOf(t)
    requires root[k][0] == 0 ==> forall j :: 0 <= j < k ==> root[j][0] != 0
    ensures DirectoryOk(root[k := t])
  {
    var after := root[k := t];
    forall i, j | 0 <= i < j < |root| && after[i][0] == 0 ensures after[j][0] == 0 {
    }
  }

  /** What a failed write leaves: the same table and directory, and the same bytes in every cluster
      that was in use. */
  ghost predicate UsedKept(v0: Volume, v: Volume) {
    && v.fat == v0.fat && v.root == v0.root && |v.data| == |v0.data|
    && forall x :: 0 <= x < |v.data| && x < |v.fat| && v0.fat[x] != 0 ==> v.data[x] == v0.data[x]
  }

  /** The clusters the search can find: free, from 2 on, below 0xFFF0, and not one of the last two. */
  lemma RoomMeans(v: Volume, c: nat)
    requires |v.data| >= 2
    ensures c in Room(v) <==> 2 <= c < |v.data| - 2 && c < 0xFFF0 && c < |v.fat| && v.fat[c] == 0
  {
    assert c in Room(v) <==> 2 <= c < |v.fat| && Allocatable(v, c);
  }
}
