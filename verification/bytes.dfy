/** Machine integers and big-endian (network order) fields.

    Integers are unbounded in Dafny; the widths of the C fields are stated by
    the subset types below, and every truncation the C code performs is
    written out where it happens. */
module Bytes {

  type byte = x: int | 0 <= x < 0x100
  type u16 = x: int | 0 <= x < 0x1_0000
  type u32 = x: int | 0 <= x < 0x1_0000_0000

  /** The two bytes of a 16-bit field in network order. */
  function BE16(v: u16): (r: seq<byte>)
    ensures |r| == 2
    ensures ReadBE16(r, 0) == v
  {
    [v / 0x100, v % 0x100]
  }

  /** The 16-bit big-endian field stored at `off`. */
  function ReadBE16(s: seq<byte>, off: nat): u16
    requires off + 2 <= |s|
  {
    (s[off] as int) * 0x100 + s[off + 1]
  }

  /** The base-256 digits of a 32-bit value, most significant first. */
  lemma BE32Digits(v: u32)
    ensures v / 0x100_0000 * 0x100_0000 + (v / 0x1_0000) % 0x100 * 0x1_0000
          + (v / 0x100) % 0x100 * 0x100 + v % 0x100 == v
  {
    var q1, d3 := v / 0x100, v % 0x100;
    var q2, d2 := q1 / 0x100, q1 % 0x100;
    var q3, d1 := q2 / 0x100, q2 % 0x100;
    assert v == q1 * 0x100 + d3;
    assert q1 == q2 * 0x100 + d2;
    assert q2 == q3 * 0x100 + d1;
    assert v == q2 * 0x1_0000 + (d2 * 0x100 + d3);
    assert v / 0x1_0000 == q2;
    assert v == q3 * 0x100_0000 + (d1 * 0x1_0000 + d2 * 0x100 + d3);
    assert v / 0x100_0000 == q3;
  }

  /** The four bytes of a 32-bit field in network order. */
  function BE32(v: u32): (r: seq<byte>)
    ensures |r| == 4
    ensures ReadBE32(r, 0) == v
  {
    BE32Digits(v);
    [v / 0x100_0000, (v / 0x1_0000) % 0x100, (v / 0x100) % 0x100, v % 0x100]
  }

  /** The 32-bit big-endian field stored at `off`. */
  function ReadBE32(s: seq<byte>, off: nat): u32
    requires off + 4 <= |s|
  {
    (s[off] as int) * 0x100_0000 + (s[off + 1] as int) * 0x1_0000
      + (s[off + 2] as int) * 0x100 + s[off + 3]
  }

  /** A field whose bytes are those of `BE16(v)` reads back as `v`. */
  lemma ReadBE16Of(s: seq<byte>, off: nat, v: u16)
    requires off + 2 <= |s|
    requires s[off] == v / 0x100 && s[off + 1] == v % 0x100
    ensures ReadBE16(s, off) == v
  {
    assert ReadBE16(BE16(v), 0) == v;
  }

  /** A field whose bytes are those of `BE32(v)` reads back as `v`. */
  lemma ReadBE32Of(s: seq<byte>, off: nat, v: u32)
    requires off + 4 <= |s|
    requires s[off] == v / 0x100_0000 && s[off + 1] == (v / 0x1_0000) % 0x100
    requires s[off + 2] == (v / 0x100) % 0x100 && s[off + 3] == v % 0x100
    ensures ReadBE32(s, off) == v
  {
    assert ReadBE32(BE32(v), 0) == v;
  }

  /** Overwrite the 16-bit field at `off` (a back-patch of an already written
      field): the field reads back as `v` and no other byte changes. */
  function PatchBE16(s: seq<byte>, off: nat, v: u16): (r: seq<byte>)
    requires off + 2 <= |s|
    ensures |r| == |s|
    ensures ReadBE16(r, off) == v
    ensures forall i | 0 <= i < |s| && i != off && i != off + 1 :: r[i] == s[i]
  {
    s[off := v / 0x100][off + 1 := v % 0x100]
  }

  /** Overwrite the single byte at `off`. */
  function PatchByte(s: seq<byte>, off: nat, v: byte): (r: seq<byte>)
    requires off < |s|
    ensures |r| == |s| && r[off] == v
    ensures forall i | 0 <= i < |s| && i != off :: r[i] == s[i]
  {
    s[off := v]
  }

  /** A patch inside a prefix leaves the suffix alone. */
  lemma PatchBE16Prefix(a: seq<byte>, b: seq<byte>, off: nat, v: u16)
    requires off + 2 <= |a|
    ensures PatchBE16(a + b, off, v) == PatchBE16(a, off, v) + b
  {
  }

  lemma PatchBytePrefix(a: seq<byte>, b: seq<byte>, off: nat, v: byte)
    requires off < |a|
    ensures PatchByte(a + b, off, v) == PatchByte(a, off, v) + b
  {
  }
}
