/** Big-endian integers in byte buffers (rtp/rtp_util.c). */
module Bytes {

  type byte = x: int | 0 <= x < 256

  predicate U16(v: int) {
    0 <= v < 0x1_0000
  }

  predicate U32(v: int) {
    0 <= v < 0x1_0000_0000
  }

  function EncodeU16(v: int): (b: seq<byte>)
    requires U16(v)
    ensures |b| == 2
  {
    [v / 256, v % 256]
  }

  function EncodeU32(v: int): (b: seq<byte>)
    requires U32(v)
    ensures |b| == 4
  {
    [v / 256 / 256 / 256, v / 256 / 256 % 256, v / 256 % 256, v % 256]
  }

  /** read_u16. */
  function ReadU16(b: seq<byte>, off: nat): (v: int)
    requires off + 2 <= |b|
    ensures U16(v)
  {
    b[off] as int * 256 + b[off + 1] as int
  }

  /** read_u32. */
  function ReadU32(b: seq<byte>, off: nat): (v: int)
    requires off + 4 <= |b|
    ensures U32(v)
  {
    ((b[off] as int * 256 + b[off + 1] as int) * 256 + b[off + 2] as int) * 256 + b[off + 3] as int
  }

  lemma U16RoundTrip(v: int, b: seq<byte>, off: nat)
    requires U16(v) && off + 2 <= |b| && b[off..off + 2] == EncodeU16(v)
    ensures ReadU16(b, off) == v
  {
    var e := b[off..off + 2];
    assert b[off] == e[0] && b[off + 1] == e[1];
  }

  lemma U32RoundTrip(v: int, b: seq<byte>, off: nat)
    requires U32(v) && off + 4 <= |b| && b[off..off + 4] == EncodeU32(v)
    ensures ReadU32(b, off) == v
  {
    var e := b[off..off + 4];
    assert b[off] == e[0] && b[off + 1] == e[1] && b[off + 2] == e[2] && b[off + 3] == e[3];
    Digits(v);
    Digits(v / 256);
    Digits(v / 256 / 256);
  }

  lemma Shifted(x: int, y: int)
    requires 0 <= y < 256
    ensures (x * 256 + y) / 256 == x && (x * 256 + y) % 256 == y
  {
  }

  lemma EncodeOfRead(b: seq<byte>, off: nat)
    requires off + 4 <= |b|
    ensures EncodeU32(ReadU32(b, off)) == b[off..off + 4]
  {
    var x: int, y: int, z: int, w: int := b[off], b[off + 1], b[off + 2], b[off + 3];
    Shifted(x, y);
    Shifted(x * 256 + y, z);
    Shifted((x * 256 + y) * 256 + z, w);
  }

  lemma Digits(v: int)
    ensures v / 256 * 256 + v % 256 == v
  {
  }

  // ---------- network order ----------

  /** a and b first differ at i, where the byte of a is smaller. */
  ghost predicate LessAt(a: seq<byte>, b: seq<byte>, i: nat) {
    i < |a| && i < |b| && a[..i] == b[..i] && a[i] < b[i]
  }

  /** Compared as byte strings, the first byte that differs deciding. */
  ghost predicate Less(a: seq<byte>, b: seq<byte>) {
    exists i: nat :: LessAt(a, b, i)
  }

  /** A first byte that differs decides; otherwise the rest does. */
  lemma LessByFirst(a: seq<byte>, b: seq<byte>)
    requires |a| > 0 && |b| > 0
    ensures Less(a, b) <==> a[0] < b[0] || (a[0] == b[0] && Less(a[1..], b[1..]))
  {
    if a[0] < b[0] {
      assert LessAt(a, b, 0);
    }
    if a[0] == b[0] && Less(a[1..], b[1..]) {
      var i: nat :| LessAt(a[1..], b[1..], i);
      assert a[..i + 1] == [a[0]] + a[1..][..i] && b[..i + 1] == [b[0]] + b[1..][..i];
      assert LessAt(a, b, i + 1);
    }
    if Less(a, b) {
      var i: nat :| LessAt(a, b, i);
      if i > 0 {
        assert a[..i][0] == b[..i][0] && a[..i][1..] == b[..i][1..];
        assert a[1..][..i - 1] == a[..i][1..] && b[1..][..i - 1] == b[..i][1..];
        assert LessAt(a[1..], b[1..], i - 1);
      }
    }
  }

  lemma NoneLess()
    ensures !Less([], [])
  {
  }

  lemma LessByDigits(v: int, w: int)
    ensures v < w <==> v / 256 < w / 256 || (v / 256 == w / 256 && v % 256 < w % 256)
  {
  }

  /** The order of numbers is the order of their bytes: the most significant byte comes first. */
  lemma U16Order(v: int, w: int)
    requires U16(v) && U16(w)
    ensures v < w <==> Less(EncodeU16(v), EncodeU16(w))
  {
    var a, b := EncodeU16(v), EncodeU16(w);
    LessByFirst(a, b);
    LessByFirst(a[1..], b[1..]);
    NoneLess();
    assert a[1..][1..] == [] && b[1..][1..] == [];
    LessByDigits(v, w);
  }

  lemma U32Order(v: int, w: int)
    requires U32(v) && U32(w)
    ensures v < w <==> Less(EncodeU32(v), EncodeU32(w))
  {
    var a, b := EncodeU32(v), EncodeU32(w);
    LessByFirst(a, b);
    LessByFirst(a[1..], b[1..]);
    LessByFirst(a[2..], b[2..]);
    LessByFirst(a[3..], b[3..]);
    NoneLess();
    hide Less;
    assert a[1..][1..] == a[2..] && b[1..][1..] == b[2..];
    assert a[2..][1..] == a[3..] && b[2..][1..] == b[3..];
    assert a[3..][1..] == [] && b[3..][1..] == [];
    LessByDigits(v, w);
    LessByDigits(v / 256, w / 256);
    LessByDigits(v / 256 / 256, w / 256 / 256);
  }

  /** Only the n places from off on differ. */
  ghost predicate OnlyWrites(s: seq<byte>, t: seq<byte>, off: nat, n: nat) {
    |s| == |t| && off + n <= |s| && t[..off] == s[..off] && t[off + n..] == s[off + n..]
  }

  method WriteU16(buffer: array<byte>, off: nat, value: int)
    requires off + 2 <= buffer.Length && U16(value)
    modifies buffer
    ensures buffer[off..off + 2] == EncodeU16(value) && OnlyWrites(old(buffer[..]), buffer[..], off, 2)
  {
    buffer[off] := value / 256;
    buffer[off + 1] := value % 256;
  }

  method WriteU32(buffer: array<byte>, off: nat, value: int)
    requires off + 4 <= buffer.Length && U32(value)
    modifies buffer
    ensures buffer[off..off + 4] == EncodeU32(value) && OnlyWrites(old(buffer[..]), buffer[..], off, 4)
  {
    buffer[off] := value / 256 / 256 / 256;
    buffer[off + 1] := value / 256 / 256 % 256;
    buffer[off + 2] := value / 256 % 256;
    buffer[off + 3] := value % 256;
  }
}
