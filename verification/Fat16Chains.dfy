/** Cluster chains of the allocation table: what a chain is, what freeing one does, and the bytes
    that following one yields. */
module Fat16Chains {
  import opened Bytes
  import opened Fat16Layout

  /** The values a cluster loop of the driver goes on for; every other value ends a chain. */
  predicate Followed(c: nat) {
    2 <= c <= 0xFFEF
  }

  ghost predicate NoDup(s: seq<nat>) {
    forall i, j :: 0 <= i < j < |s| ==> s[i] != s[j]
  }

  /** cs lists, in order, the clusters of the chain that starts at c; every cluster has a table
      entry and data, and the last entry is an end mark. */
  ghost predicate IsChain(v: Volume, c: nat, cs: seq<nat>) {
    && (forall i :: 0 <= i < |cs| ==> Followed(cs[i]) && cs[i] < |v.data| && cs[i] < |v.fat|)
    && (if cs == [] then !Followed(c) else
          && cs[0] == c
          && (forall i :: 0 <= i < |cs| - 1 ==> v.fat[cs[i]] == cs[i + 1])
          && v.fat[cs[|cs| - 1]] > 0xFFEF)
  }

  /** Every cluster holds cb bytes and has a table entry. */
  ghost predicate Shaped(v: Volume, cb: nat) {
    && cb > 0 && 2 <= |v.data| <= |v.fat|
    && (forall c :: 2 <= c < |v.data| ==> |v.data[c]| == cb)
    && (forall c :: 0 <= c < |v.fat| ==> v.fat[c] < 0x1_0000)
  }

  lemma VolumeShaped(d: seq<Sector>, b: Bpb)
    requires b.Sound(|d|)
    ensures Shaped(VolumeOf(d, b), b.ClusterSize())
    ensures |VolumeOf(d, b).root| == b.rootEntries
    ensures |VolumeOf(d, b).fat| == b.TableEntries()
    ensures |VolumeOf(d, b).data| == b.TotalClusters() + 2
  {
    TablesFit(d, b);
    var v := VolumeOf(d, b);
    forall c | 0 <= c < |v.fat| ensures v.fat[c] < 0x1_0000 {
      assert v.fat[c] == Le16(d[b.reservedSectors + c / 256], 2 * (c % 256));
    }
  }

  lemma ChainTail(v: Volume, c: nat, cs: seq<nat>)
    requires IsChain(v, c, cs) && cs != []
    ensures IsChain(v, v.fat[c], cs[1..])
  {
    if |cs| > 1 {
      assert v.fat[cs[0]] == cs[1];
    }
  }

  /** A start cluster has at most one chain. */
  lemma {:induction false} ChainUnique(v: Volume, c: nat, cs: seq<nat>, cs': seq<nat>)
    requires IsChain(v, c, cs) && IsChain(v, c, cs')
    ensures cs == cs'
    decreases |cs|
  {
    if cs != [] && cs' != [] {
      ChainTail(v, c, cs);
      ChainTail(v, c, cs');
      ChainUnique(v, v.fat[c], cs[1..], cs'[1..]);
      assert cs == [c] + cs[1..] && cs' == [c] + cs'[1..];
    }
  }

  lemma ChainFramed(v: Volume, w: Volume, c: nat, cs: seq<nat>)
    requires IsChain(v, c, cs) && |v.fat| == |w.fat| && |v.data| == |w.data|
    requires forall x :: x in cs ==> w.fat[x] == v.fat[x]
    ensures IsChain(w, c, cs)
  {
    forall i | 0 <= i < |cs| ensures w.fat[cs[i]] == v.fat[cs[i]] {
      assert cs[i] in cs;
    }
  }

  // ----- bytes along a chain

  /** The first n bytes found by following the table from c (fewer where the chain is short). */
  ghost function Walk(v: Volume, cb: nat, c: nat, n: nat): (s: seq<Byte>)
    requires Shaped(v, cb)
    ensures |s| <= n
    decreases n
  {
    if n == 0 || !Followed(c) || c >= |v.data| then []
    else if n <= cb then v.data[c][..n]
    else v.data[c] + Walk(v, cb, v.fat[c], n - cb)
  }

  /** The bytes of the first cluster, then those from its link on. */
  lemma WalkStep(v: Volume, cb: nat, c: nat, n: nat)
    requires Shaped(v, cb) && Followed(c) && ReadsExist(v, cb, c, n)
    ensures c < |v.data| && |v.data[c]| == cb
    ensures n <= cb ==> Walk(v, cb, c, n) == v.data[c][..n]
    ensures n > cb ==> Walk(v, cb, c, n) == v.data[c] + Walk(v, cb, v.fat[c], n - cb) && ReadsExist(v, cb, v.fat[c], n - cb)
  {
  }

  /** Reading n bytes along the links from c asks for existing clusters only. */
  ghost predicate ReadsExist(v: Volume, cb: nat, c: nat, n: nat)
    requires Shaped(v, cb)
    decreases n
  {
    Followed(c) ==> c < |v.data| && (n > cb ==> ReadsExist(v, cb, v.fat[c], n - cb))
  }

  lemma {:induction false} ClosedReadsExist(v: Volume, cb: nat, c: nat, n: nat)
    requires Shaped(v, cb) && (Followed(c) ==> c < |v.data|)
    requires forall x :: 0 <= x < |v.data| && Followed(v.fat[x]) ==> v.fat[x] < |v.data|
    ensures ReadsExist(v, cb, c, n)
    decreases n
  {
    if Followed(c) && n > cb {
      ClosedReadsExist(v, cb, v.fat[c], n - cb);
    }
  }

  lemma {:induction false} ChainReadsExist(v: Volume, cb: nat, c: nat, cs: seq<nat>, n: nat)
    requires Shaped(v, cb) && IsChain(v, c, cs)
    ensures ReadsExist(v, cb, c, n)
    decreases n
  {
    if cs != [] && n > cb {
      ChainTail(v, c, cs);
      ChainReadsExist(v, cb, v.fat[c], cs[1..], n - cb);
    }
  }

  lemma {:induction false} WalkFramed(v: Volume, w: Volume, cb: nat, c: nat, n: nat, cs: seq<nat>)
    requires Shaped(v, cb) && Shaped(w, cb) && |v.fat| == |w.fat| && |v.data| == |w.data|
    requires IsChain(v, c, cs)
    requires forall x :: x in cs ==> w.fat[x] == v.fat[x] && w.data[x] == v.data[x]
    ensures Walk(w, cb, c, n) == Walk(v, cb, c, n)
    decreases n
  {
    if cs != [] {
      assert cs[0] in cs;
      if n > cb {
        ChainTail(v, c, cs);
        WalkFramed(v, w, cb, v.fat[c], n - cb, cs[1..]);
      }
    }
  }

  /** The bytes n clusters hold. */
  function Capacity(n: nat, cb: nat): nat {
    n * cb
  }

  lemma CapacityNext(n: nat, cb: nat)
    ensures Capacity(0, cb) == 0 && Capacity(n + 1, cb) == Capacity(n, cb) + cb
  {
  }

  lemma {:induction false} CapacityMonotone(a: nat, b: nat, cb: nat)
    requires a <= b
    ensures Capacity(a, cb) <= Capacity(b, cb)
    decreases b
  {
    if a < b {
      CapacityMonotone(a, b - 1, cb);
      CapacityNext(b - 1, cb);
    }
  }

  /** cb bytes from offset o of s, padded with zeros past its end. */
  ghost function Padded(s: seq<Byte>, o: nat, cb: nat): (p: seq<Byte>)
    ensures |p| == cb
  {
    seq(cb, k requires 0 <= k < cb => if o + k < |s| then s[o + k] else 0)
  }

  /** The next sector of padding starts where the bytes before it ended. */
  lemma PaddedGrows(s: seq<Byte>, o: nat, n: nat, from: nat)
    requires o <= |s| && from == if o + n < |s| then o + n else |s|
    ensures Padded(s, o, n) + Padded(s, from, 512) == Padded(s, o, n + 512)
  {
  }

  lemma SpanNone(d: seq<Sector>, first: nat, s: seq<Byte>, o: nat)
    requires first <= |d|
    ensures Span(d, first, 0) == Padded(s, o, 0)
  {
  }

  lemma PaddedIsSlice(s: seq<Byte>, o: nat, cb: nat)
    requires o <= |s|
    ensures if o + cb <= |s| then Padded(s, o, cb) == s[o..o + cb] else Padded(s, o, cb)[..|s| - o] == s[o..]
  {
  }

  /** The clusters cs hold consecutive chunks of s, from offset o on. */
  ghost predicate HoldsChunks(v: Volume, cb: nat, cs: seq<nat>, s: seq<Byte>, o: nat) {
    forall i :: 0 <= i < |cs| ==> cs[i] < |v.data| && v.data[cs[i]] == Padded(s, o + Capacity(i, cb), cb)
  }

  lemma ChunksTail(v: Volume, cb: nat, cs: seq<nat>, s: seq<Byte>, o: nat)
    requires HoldsChunks(v, cb, cs, s, o) && cs != []
    ensures v.data[cs[0]] == Padded(s, o, cb) && HoldsChunks(v, cb, cs[1..], s, o + cb)
  {
    hide Capacity;
    CapacityNext(0, cb);
    var rest := cs[1..];
    forall i | 0 <= i < |rest| ensures rest[i] < |v.data| && v.data[rest[i]] == Padded(s, o + cb + Capacity(i, cb), cb) {
      assert rest[i] == cs[i + 1];
      CapacityNext(i, cb);
    }
  }

  /** A chain whose i-th cluster holds the i-th padded chunk of s reads back as s. */
  lemma {:induction false} WalkReadsBack(v: Volume, cb: nat, c: nat, cs: seq<nat>, s: seq<Byte>, o: nat)
    requires Shaped(v, cb) && IsChain(v, c, cs) && o <= |s|
    requires |s| - o <= Capacity(|cs|, cb)
    requires HoldsChunks(v, cb, cs, s, o)
    ensures Walk(v, cb, c, |s| - o) == s[o..]
    decreases |cs|
  {
    hide Capacity, Padded, HoldsChunks;
    CapacityNext(0, cb);
    if o < |s| {
      ChunksTail(v, cb, cs, s, o);
      PaddedIsSlice(s, o, cb);
      if |s| - o > cb {
        ChainTail(v, c, cs);
        CapacityNext(|cs[1..]|, cb);
        WalkReadsBack(v, cb, v.fat[c], cs[1..], s, o + cb);
      }
    }
  }

  /** A chain with enough clusters yields all the bytes asked for. */
  lemma {:induction false} WalkLength(v: Volume, cb: nat, c: nat, cs: seq<nat>, n: nat)
    requires Shaped(v, cb) && IsChain(v, c, cs) && n <= Capacity(|cs|, cb)
    ensures |Walk(v, cb, c, n)| == n
    decreases |cs|
  {
    hide Capacity;
    CapacityNext(0, cb);
    if n > 0 {
      assert cs != [];
      if n > cb {
        ChainTail(v, c, cs);
        CapacityNext(|cs[1..]|, cb);
        WalkLength(v, cb, v.fat[c], cs[1..], n - cb);
      }
    }
  }

  // ----- freeing

  ghost function Allocated(fat: seq<nat>): set<nat> {
    set c | 0 <= c < |fat| && fat[c] != 0
  }

  /** The links a freeing loop follows never leave the table. */
  ghost predicate LinksInTable(fat: seq<nat>) {
    forall c :: 0 <= c < |fat| && Followed(fat[c]) ==> fat[c] < |fat|
  }

  lemma ClearShrinks(fat: seq<nat>, c: nat)
    requires c < |fat| && fat[c] != 0
    ensures Allocated(fat[c := 0]) == Allocated(fat) - {c}
    ensures |Allocated(fat[c := 0])| < |Allocated(fat)|
  {
    assert c in Allocated(fat);
    assert Allocated(fat[c := 0]) == Allocated(fat) - {c};
  }

  /** The table after the freeing loop has run from c, on any table at all. */
  ghost function Freed(fat: seq<nat>, c: nat): (f: seq<nat>)
    ensures |f| == |fat|
    decreases |Allocated(fat)|
  {
    if !Followed(c) || c >= |fat| || fat[c] == 0 then fat
    else
      ClearShrinks(fat, c);
      Freed(fat[c := 0], fat[c])
  }

  /** Following links from c, clearing on the way, never leaves the table. */
  ghost predicate StaysInTable(fat: seq<nat>, c: nat)
    decreases |Allocated(fat)|
  {
    Followed(c) ==> c < |fat| && (fat[c] != 0 ==>
      (ClearShrinks(fat, c); StaysInTable(fat[c := 0], fat[c])))
  }

  /** Where no link at all leaves the table, no walk does: cyclic and cross-linked tables included. */
  lemma {:induction false} ClosedTableStays(fat: seq<nat>, c: nat)
    requires LinksInTable(fat) && (Followed(c) ==> c < |fat|)
    ensures StaysInTable(fat, c)
    decreases |Allocated(fat)|
  {
    if Followed(c) && fat[c] != 0 {
      ClearShrinks(fat, c);
      ClosedTableStays(fat[c := 0], fat[c]);
    }
  }

  lemma {:induction false} ChainStays(v: Volume, c: nat, cs: seq<nat>)
    requires IsChain(v, c, cs) && NoDup(cs)
    ensures StaysInTable(v.fat, c)
    decreases |cs|
  {
    if cs != [] && v.fat[c] != 0 {
      ChainTail(v, c, cs);
      var w := v.(fat := v.fat[c := 0]);
      ChainFramed(v, w, v.fat[c], cs[1..]);
      ClearShrinks(v.fat, c);
      ChainStays(w, v.fat[c], cs[1..]);
    }
  }

  /** The cluster k links after c, or 0 once a link leaves the followed range. */
  ghost function After(fat: seq<nat>, c: nat, k: nat): nat
    decreases k
  {
    if !Followed(c) || c >= |fat| then 0 else if k == 0 then c else After(fat, fat[c], k - 1)
  }

  ghost predicate ReachesIn(fat: seq<nat>, c: nat, x: nat, k: nat) {
    Followed(x) && After(fat, c, k) == x
  }

  ghost predicate Reaches(fat: seq<nat>, c: nat, x: nat) {
    exists k: nat :: ReachesIn(fat, c, x, k)
  }

  /** A route that avoids a cleared cluster until its last step survives the clearing, and none appears. */
  lemma {:induction false} ClearedRoutes(fat: seq<nat>, c: nat, n: nat, x: nat, k: nat) returns (j: nat)
    requires Followed(c) && c < |fat|
    requires ReachesIn(fat, n, x, k)
    ensures ReachesIn(fat[c := 0], n, x, k) || (j < k && ReachesIn(fat, c, x, k - j) && 0 < k - j)
    ensures j <= k
    decreases k
  {
    if k == 0 {
      j := 0;
    } else if n == c {
      j := 0;
    } else {
      var i := ClearedRoutes(fat, c, fat[n], x, k - 1);
      j := i + 1;
    }
  }

  lemma {:induction false} ClearedRoutesBack(fat: seq<nat>, c: nat, n: nat, x: nat, k: nat)
    requires Followed(c) && c < |fat|
    requires ReachesIn(fat[c := 0], n, x, k)
    ensures ReachesIn(fat, n, x, k)
    decreases k
  {
    if k > 0 {
      if n == c {
        assert After(fat[c := 0], 0, k - 1) == 0;
      } else {
        ClearedRoutesBack(fat, c, fat[n], x, k - 1);
      }
    }
  }

  lemma {:induction false} ReachesOnward(fat: seq<nat>, c: nat, x: nat, k: nat)
    requires Followed(c) && c < |fat| && ReachesIn(fat, c, x, k)
    ensures x == c || Reaches(fat[c := 0], fat[c], x)
    decreases k
  {
    if k > 0 {
      assert ReachesIn(fat, fat[c], x, k - 1);
      var j := ClearedRoutes(fat, c, fat[c], x, k - 1);
      if ReachesIn(fat[c := 0], fat[c], x, k - 1) {
      } else {
        ReachesOnward(fat, c, x, k - 1 - j);
      }
    }
  }

  /** What is reachable from c is c itself and what its successor still reaches once c is cleared. */
  lemma ReachesStep(fat: seq<nat>, c: nat, x: nat)
    requires Followed(c) && c < |fat|
    ensures Reaches(fat, c, x) <==> x == c || Reaches(fat[c := 0], fat[c], x)
  {
    if Reaches(fat, c, x) {
      var k: nat :| ReachesIn(fat, c, x, k);
      ReachesOnward(fat, c, x, k);
    }
    if x == c {
      assert ReachesIn(fat, c, x, 0);
    } else if Reaches(fat[c := 0], fat[c], x) {
      var k: nat :| ReachesIn(fat[c := 0], fat[c], x, k);
      ClearedRoutesBack(fat, c, fat[c], x, k);
      assert ReachesIn(fat, c, x, k + 1);
    }
  }

  lemma StuckReachesNothing(fat: seq<nat>, c: nat, x: nat)
    requires !Followed(c) || c >= |fat|
    ensures !Reaches(fat, c, x)
  {
    forall k: nat ensures !ReachesIn(fat, c, x, k) {
    }
  }

  /** On every table, cyclic and cross-linked ones included, the freeing loop zeroes exactly the
      clusters reachable from its start and changes no other entry. */
  lemma {:induction false} FreedExactly(fat: seq<nat>, c: nat, x: nat)
    requires x < |fat|
    ensures Freed(fat, c)[x] == if Reaches(fat, c, x) then 0 else fat[x]
    decreases |Allocated(fat)|
  {
    if !Followed(c) || c >= |fat| {
      StuckReachesNothing(fat, c, x);
    } else {
      ReachesStep(fat, c, x);
      if fat[c] == 0 {
        StuckReachesNothing(fat[c := 0], 0, x);
      } else {
        ClearShrinks(fat, c);
        FreedExactly(fat[c := 0], fat[c], x);
      }
    }
  }

  /** Freeing a proper chain zeroes exactly its clusters. */
  lemma {:induction false} FreedChain(v: Volume, c: nat, cs: seq<nat>, x: nat)
    requires IsChain(v, c, cs) && NoDup(cs) && x < |v.fat|
    ensures Freed(v.fat, c)[x] == if x in cs then 0 else v.fat[x]
    decreases |cs|
  {
    if cs != [] {
      ChainTail(v, c, cs);
      var w := v.(fat := v.fat[c := 0]);
      var rest := cs[1..];
      assert cs == [c] + rest;
      assert v.fat[c] != 0 by {
        if |cs| > 1 { assert v.fat[cs[0]] == cs[1]; }
      }
      ChainFramed(v, w, v.fat[c], rest);
      ClearShrinks(v.fat, c);
      FreedChain(w, v.fat[c], rest, x);
    }
  }

  /** A chain goes on at the clusters 2 to 0xFFEF and ends at any other value of the table. */
  lemma ChainMeans(v: Volume, c: nat, cs: seq<nat>)
    requires IsChain(v, c, cs)
    ensures cs == [] <==> c < 2 || c > 0xFFEF
    ensures cs != [] ==> cs[0] == c && v.fat[cs[|cs| - 1]] > 0xFFEF
    ensures forall i :: 0 <= i < |cs| - 1 ==> v.fat[cs[i]] == cs[i + 1]
  {
  }

  /** A chunk holds the bytes from its offset on, and zeros behind the end of the data. */
  lemma PaddedMeans(s: seq<Byte>, o: nat, cb: nat, k: nat)
    requires k < cb
    ensures Padded(s, o, cb)[k] == if o + k < |s| then s[o + k] else 0
  {
  }
}
