/** Formatting of file names into the eleven bytes of a directory entry. */
module Fat16Names {
  import opened Bytes
  import opened Fat16Files

  const DOT: Byte := 0x2E
  const SPACE: Byte := 0x20

  /** A C string, without its terminator. */
  type CString = s: seq<Byte> | forall i :: 0 <= i < |s| ==> s[i] != 0

  /** The byte a C program reads at index i. */
  function At(s: CString, i: nat): Byte
    requires i <= |s|
  {
    if i < |s| then s[i] else 0
  }

  function Upper(c: Byte): Byte {
    if 0x61 <= c <= 0x7A then c - 32 else c
  }

  /** Position of the first dot, or the length. */
  function Dot(s: seq<Byte>): (d: nat)
    ensures IsDot(s, d)
  {
    if s == [] || s[0] == DOT then 0 else
      var d := 1 + Dot(s[1..]);
      assert forall i :: 1 <= i < d ==> s[i] == s[1..][i - 1];
      d
  }

  predicate IsDot(s: seq<Byte>, d: nat) {
    d <= |s| && (forall i :: 0 <= i < d ==> s[i] != DOT) && (d < |s| ==> s[d] == DOT)
  }

  lemma DotUnique(s: seq<Byte>, d: nat)
    requires IsDot(s, d)
    ensures d == Dot(s)
  {
  }

  /** s in a field of n bytes: upper case, cut at n, padded with spaces. */
  function Field(s: seq<Byte>, n: nat): (f: seq<Byte>)
    ensures |f| == n
  {
    seq(n, k requires 0 <= k < n => if k < |s| then Upper(s[k]) else SPACE)
  }

  function Base(s: seq<Byte>): seq<Byte> { s[..Dot(s)] }

  function Extension(s: seq<Byte>): seq<Byte> {
    if Dot(s) < |s| then s[Dot(s) + 1..] else []
  }

  /** The 8.3 name of a file: what comes before the first dot and what comes after it. */
  function FatName(s: CString): (n: Name)
  {
    var n := Field(Base(s), 8) + Field(Extension(s), 3);
    assert forall k :: 0 <= k < 11 ==> n[k] != 0;
    n
  }

  /** The eleven bytes of a name whose first dot, if it has one, is at d: byte k of the base is byte k of
      the name, byte k of the extension is the k-th behind the dot, with the letters a to z as capitals,
      and blanks fill up both. */
  lemma FatNameBytes(s: CString, d: nat, k: nat)
    requires d <= |s| && (forall i :: 0 <= i < d ==> s[i] != 0x2E) && (d < |s| ==> s[d] == 0x2E) && k < 11
    ensures var at, end := if k < 8 then k else d + 1 + (k - 8), if k < 8 then d else |s|;
      FatName(s)[k] == if at >= end then 0x20 else if 0x61 <= s[at] <= 0x7A then s[at] - 0x20 else s[at]
  {
    DotUnique(s, d);
  }

  /** No stored name holds a small letter. */
  lemma FatNameCapital(s: CString, k: nat)
    requires k < 11
    ensures !(0x61 <= FatName(s)[k] <= 0x7A)
  {
    FatNameBytes(s, Dot(s), k);
  }

  /** Case does not distinguish names: where the two differ, one has the capital of the other's letter. */
  lemma FatNameIgnoresCase(s: CString, t: CString)
    requires |s| == |t| && forall i :: 0 <= i < |s| ==>
      s[i] == t[i] || (0x61 <= s[i] <= 0x7A && t[i] == s[i] - 0x20) || (0x61 <= t[i] <= 0x7A && s[i] == t[i] - 0x20)
    ensures FatName(s) == FatName(t)
  {
    assert forall i :: 0 <= i < |s| ==> Upper(s[i]) == Upper(t[i]);
    var d := Dot(s);
    assert IsDot(t, d);
    DotUnique(t, d);
    assert Field(Base(s), 8) == Field(Base(t), 8);
    assert Field(Extension(s), 3) == Field(Extension(t), 3);
  }

  /** Short upper-case names are stored as they are, and distinct ones stay distinct. */
  lemma FatNameInjective(b: CString, e: CString, b': CString, e': CString)
    requires |b| <= 8 && |b'| <= 8 && |e| <= 3 && |e'| <= 3 && DOT !in b && DOT !in b'
    requires forall c :: c in b + e + b' + e' ==> c != 0x20 && !(0x61 <= c <= 0x7A)
    requires FatName(b + [DOT] + e) == FatName(b' + [DOT] + e')
    ensures b == b' && e == e'
  {
    FatNameSplit(b, e);
    FatNameSplit(b', e');
    var n := FatName(b + [DOT] + e);
    assert Field(b, 8) == n[..8] == Field(b', 8);
    assert Field(e, 3) == n[8..] == Field(e', 3);
    assert forall c :: c in b || c in e || c in b' || c in e' ==> c in b + e + b' + e';
    FieldInjective(b, b', 8);
    FieldInjective(e, e', 3);
  }

  lemma FatNameSplit(b: CString, e: CString)
    requires DOT !in b
    ensures FatName(b + [DOT] + e) == Field(b, 8) + Field(e, 3)
  {
    var s := b + [DOT] + e;
    assert s[..|b|] == b;
    DotUnique(s, |b|);
    assert s[|b| + 1..] == e;
  }

  lemma FieldNoLonger(s: seq<Byte>, t: seq<Byte>, n: nat)
    requires |s| <= n && |t| <= n && Field(s, n) == Field(t, n)
    requires forall c :: c in t ==> c != SPACE && Upper(c) == c
    ensures |t| <= |s|
  {
    assert |s| < n ==> Field(s, n)[|s|] == SPACE;
    if |s| < |t| {
      assert false;
    }
  }

  lemma FieldInjective(s: CString, t: CString, n: nat)
    requires |s| <= n && |t| <= n && Field(s, n) == Field(t, n)
    requires forall c :: c in s || c in t ==> c != SPACE && Upper(c) == c
    ensures s == t
  {
    var f := Field(s, n);
    FieldNoLonger(s, t, n);
    FieldNoLonger(t, s, n);
    forall k | 0 <= k < n ensures (k < |s| <==> k < |t|) && (k < |s| ==> s[k] == t[k]) {
      assert f[k] == if k < |s| then Upper(s[k]) else SPACE;
      assert f[k] == if k < |t| then Upper(t[k]) else SPACE;
      assert k < |s| ==> s[k] in s;
      assert k < |t| ==> t[k] in t;
    }
  }

  /** format_fat_name: three loops over the input, filling the output in place. */
  method FormatName(s: CString) returns (out: Name)
    ensures out == FatName(s)
  {
    var o: seq<Byte> := seq(11, _ => SPACE);
    var i, j := 0, 0;
    while At(s, i) != 0 && At(s, i) != DOT && j < 8
      decreases |s| - i
      invariant i == j <= 8 && i <= |s| && |o| == 11 && i <= Dot(s)
      invariant forall k :: 0 <= k < 11 ==> o[k] == if k < i then Upper(s[k]) else SPACE
    {
      DotAfter(s, i);
      o := o[j := Upper(s[i])];
      i, j := i + 1, j + 1;
    }
    ghost var o8 := o;
    while At(s, i) != 0 && At(s, i) != DOT
      decreases |s| - i
      invariant i <= |s| && i <= Dot(s) && (j < 8 ==> i == j)
    {
      DotAfter(s, i);
      i := i + 1;
    }
    assert i == Dot(s);
    assert o[..8] == Field(Base(s), 8);
    if At(s, i) == DOT {
      i := i + 1;
      j := 8;
      while At(s, i) != 0 && j < 11
        decreases |s| - i
        invariant 8 <= j <= 11 && i <= |s| && i - (Dot(s) + 1) == j - 8 && |o| == 11 && o[..8] == o8[..8]
        invariant forall k :: 8 <= k < 11 ==> o[k] == if k < j then Upper(s[Dot(s) + 1 + k - 8]) else SPACE
      {
        o := o[j := Upper(s[i])];
        i, j := i + 1, j + 1;
      }
    }
    assert o[8..] == Field(Extension(s), 3);
    assert o == o[..8] + o[8..];
    out := o;
  }

  lemma DotAfter(s: seq<Byte>, i: nat)
    requires i < |s| && i <= Dot(s) && s[i] != DOT
    ensures i < Dot(s)
  {
  }
}
