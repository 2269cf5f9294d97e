/** Bytes, and the little-endian 16-, 32- and 64-bit fields stored in them. */
module Bytes {

  type Byte = b: int | 0 <= b < 0x100

  /** The 16-bit field at offset o, as an x86 load of a uint16_t sees it. */
  function Le16(s: seq<Byte>, o: nat): (v: nat)
    requires o + 2 <= |s|
    ensures v < 0x1_0000
  {
    s[o] as int + 0x100 * (s[o + 1] as int)
  }

  function Le32(s: seq<Byte>, o: nat): (v: nat)
    requires o + 4 <= |s|
    ensures v < 0x1_0000_0000
  {
    Le16(s, o) + 0x1_0000 * Le16(s, o + 2)
  }

  function Le64(s: seq<Byte>, o: nat): (v: nat)
    requires o + 8 <= |s|
    ensures v < 0x1_0000_0000_0000_0000
  {
    Le32(s, o) + 0x1_0000_0000 * Le32(s, o + 4)
  }

  /** s with the 16-bit field at offset o replaced by v: a uint16_t store. */
  function Put16(s: seq<Byte>, o: nat, v: nat): (t: seq<Byte>)
    requires o + 2 <= |s| && v < 0x1_0000
    ensures |t| == |s|
    ensures Le16(t, o) == v
    ensures forall i :: 0 <= i < |s| && !(o <= i < o + 2) ==> t[i] == s[i]
  {
    s[o := v % 0x100][o + 1 := v / 0x100]
  }

  function Put32(s: seq<Byte>, o: nat, v: nat): (t: seq<Byte>)
    requires o + 4 <= |s| && v < 0x1_0000_0000
    ensures |t| == |s|
    ensures Le32(t, o) == v
    ensures forall i :: 0 <= i < |s| && !(o <= i < o + 4) ==> t[i] == s[i]
  {
    Put16(Put16(s, o, v % 0x1_0000), o + 2, v / 0x1_0000)
  }

  function Put64(s: seq<Byte>, o: nat, v: nat): (t: seq<Byte>)
    requires o + 8 <= |s| && v < 0x1_0000_0000_0000_0000
    ensures |t| == |s|
    ensures Le64(t, o) == v
    ensures forall i :: 0 <= i < |s| && !(o <= i < o + 8) ==> t[i] == s[i]
  {
    Put32(Put32(s, o, v % 0x1_0000_0000), o + 4, v / 0x1_0000_0000)
  }

  /** The n bytes at offset o as a number, the first byte the least. */
  function LittleEndian(s: seq<Byte>, o: nat, n: nat): nat
    requires o + n <= |s|
    decreases n
  {
    if n == 0 then 0 else s[o] + 256 * LittleEndian(s, o + 1, n - 1)
  }

  lemma LittleEndianParts(s: seq<Byte>, o: nat)
    ensures o + 2 <= |s| ==> Le16(s, o) == LittleEndian(s, o, 2)
    ensures o + 4 <= |s| ==> LittleEndian(s, o, 4) == LittleEndian(s, o, 2) + 0x1_0000 * LittleEndian(s, o + 2, 2)
    ensures o + 8 <= |s| ==> LittleEndian(s, o, 8) == LittleEndian(s, o, 4) + 0x1_0000_0000 * LittleEndian(s, o + 4, 4)
  {
    if o + 2 <= |s| {
      assert LittleEndian(s, o, 2) == s[o] + 256 * (s[o + 1] + 256 * LittleEndian(s, o + 2, 0));
    }
    if o + 4 <= |s| {
      assert LittleEndian(s, o, 4) == s[o] + 256 * (s[o + 1] + 256 * LittleEndian(s, o + 2, 2));
    }
    if o + 8 <= |s| {
      assert LittleEndian(s, o, 8) == s[o] + 256 * (s[o + 1] + 256 * (s[o + 2] + 256 * (s[o + 3] + 256 * LittleEndian(s, o + 4, 4))));
      assert LittleEndian(s, o, 4) == s[o] + 256 * (s[o + 1] + 256 * (s[o + 2] + 256 * (s[o + 3] + 256 * LittleEndian(s, o + 4, 0))));
    }
  }

  /** The loads are those of a little-endian machine: the first byte weighs least. */
  lemma LoadsLittleEndian(s: seq<Byte>, o: nat)
    ensures o + 2 <= |s| ==> Le16(s, o) == LittleEndian(s, o, 2)
    ensures o + 4 <= |s| ==> Le32(s, o) == LittleEndian(s, o, 4)
    ensures o + 8 <= |s| ==> Le64(s, o) == LittleEndian(s, o, 8)
  {
    hide LittleEndian;
    LittleEndianParts(s, o);
    LittleEndianParts(s, o + 2);
    LittleEndianParts(s, o + 4);
    LittleEndianParts(s, o + 6);
  }
}
