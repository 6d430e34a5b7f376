/** The SDES packet printer and parser (rtp/rtcp_sdes.c, rtp/rtcp_header.c), after section 6.5 of RFC 3550. */
module Sdes {
  import opened Bytes

  const RTCP_SDES: byte := 202

  datatype Item = Item(typ: byte, data: seq<byte>)
  datatype Entry = Entry(id: int, items: seq<Item>)
  datatype Header = Header(version: int, p: int, count: int, pt: byte, length: int)

  /** What the widths of the fields allow. */
  predicate ValidItem(item: Item) {
    |item.data| <= 255
  }

  predicate ValidEntry(e: Entry) {
    U32(e.id) && |e.items| <= 255 && forall i :: 0 <= i < |e.items| ==> ValidItem(e.items[i])
  }

  predicate ValidHeader(h: Header) {
    0 <= h.version < 4 && 0 <= h.p < 2 && 0 <= h.count < 32 && U16(h.length)
  }

  predicate ValidEntries(es: seq<Entry>) {
    forall i :: 0 <= i < |es| ==> ValidEntry(es[i])
  }

  // ---------- the bytes of a packet ----------

  function HeaderBytes(h: Header): (b: seq<byte>)
    requires ValidHeader(h)
    ensures |b| == 4
  {
    [h.version * 64 + h.p * 32 + h.count, h.pt] + EncodeU16(h.length)
  }

  function ItemBytes(item: Item): (b: seq<byte>)
    requires ValidItem(item)
    ensures |b| == 2 + |item.data|
  {
    [item.typ, |item.data|] + item.data
  }

  function ItemsBytes(items: seq<Item>): (b: seq<byte>)
    requires forall i :: 0 <= i < |items| ==> ValidItem(items[i])
  {
    if items == [] then [] else ItemsBytes(items[..|items| - 1]) + ItemBytes(items[|items| - 1])
  }

  function Padded(n: nat): (m: nat)
    ensures n <= m < n + 4 && m % 4 == 0
  {
    if n % 4 != 0 then n + (4 - n % 4) else n
  }

  function Zeros(n: nat): (z: seq<byte>)
    ensures |z| == n && forall i :: 0 <= i < n ==> z[i] == 0
  {
    seq(n, _ => 0)
  }

  function EntrySize(e: Entry): nat
    requires ValidEntry(e)
  {
    Padded(5 + |ItemsBytes(e.items)|)
  }

  /** Identifier, items, and at least one zero up to the next multiple of four. */
  function EntryBytes(e: Entry): (b: seq<byte>)
    requires ValidEntry(e)
    ensures |b| == EntrySize(e) && |b| % 4 == 0
  {
    EncodeU32(e.id) + ItemsBytes(e.items) + Zeros(EntrySize(e) - 4 - |ItemsBytes(e.items)|)
  }

  function EntriesBytes(es: seq<Entry>): (b: seq<byte>)
    requires ValidEntries(es)
    ensures |b| % 4 == 0
  {
    if es == [] then [] else EntriesBytes(es[..|es| - 1]) + EntryBytes(es[|es| - 1])
  }

  // ---------- what the parser does ----------

  /** Overrun: the parser, which never looks at the size of the body, would read past the buffer. */
  datatype Outcome<T> = Parsed(value: T, offset: nat) | Rejected | Overrun

  predicate HasType(items: seq<Item>, typ: byte) {
    exists i :: 0 <= i < |items| && items[i].typ == typ
  }

  /** Items from off on, appended to those already found. */
  function ParseItems(b: seq<byte>, off: nat, items: seq<Item>): (r: Outcome<seq<Item>>)
    ensures r.Parsed? ==> off < r.offset
    decreases |b| - off
  {
    if off >= |b| then Overrun
    else if b[off] == 0 then Parsed(items, off + 4 - off % 4)
    else if off + 1 >= |b| then Overrun
    else if HasType(items, b[off]) || |items| == 255 then Rejected
    else if off + 2 + b[off + 1] > |b| then Overrun
    else ParseItems(b, off + 2 + b[off + 1], items + [Item(b[off], b[off + 2..off + 2 + b[off + 1]])])
  }

  function ParseEntry(b: seq<byte>, off: nat): Outcome<Entry> {
    if off + 4 > |b| then Overrun
    else match ParseItems(b, off + 4, [])
      case Parsed(items, next) => Parsed(Entry(ReadU32(b, off), items), next)
      case Rejected => Rejected
      case Overrun => Overrun
  }

  function ParseEntries(b: seq<byte>, off: nat, n: nat, es: seq<Entry>): Outcome<seq<Entry>>
    decreases n
  {
    if n == 0 then Parsed(es, off)
    else match ParseEntry(b, off)
      case Parsed(e, next) => ParseEntries(b, next, n - 1, es + [e])
      case Rejected => Rejected
      case Overrun => Overrun
  }

  function ParseHeader(b: seq<byte>): (h: Header)
    requires |b| >= 4
    ensures ValidHeader(h)
  {
    Header(b[0] / 64, b[0] / 32 % 2, b[0] % 32, b[1], ReadU16(b, 2))
  }

  // ---------- serializing ----------

  method ItemSize(item: Item) returns (size: nat)
    requires ValidItem(item)
    ensures size == |ItemBytes(item)|
  {
    size := 2 + |item.data|;
  }

  method ComputeEntrySize(source: Entry) returns (size: nat)
    requires ValidEntry(source)
    ensures size == EntrySize(source)
  {
    size := 5;
    for i := 0 to |source.items|
      invariant size == 5 + |ItemsBytes(source.items[..i])|
    {
      assert source.items[..i + 1][..i] == source.items[..i];
      var s := ItemSize(source.items[i]);
      size := size + s;
    }
    assert source.items[..|source.items|] == source.items;
    if size % 4 != 0 {
      size := size + (4 - size % 4);
    }
  }

  method CopyBytes(buffer: array<byte>, off: nat, data: seq<byte>)
    requires off + |data| <= buffer.Length
    modifies buffer
    ensures buffer[off..off + |data|] == data && OnlyWrites(old(buffer[..]), buffer[..], off, |data|)
  {
    for i := 0 to |data|
      invariant buffer[off..off + i] == data[..i]
      invariant buffer[..off] == old(buffer[..off]) && buffer[off + |data|..] == old(buffer[off + |data|..])
    {
      buffer[off + i] := data[i];
    }
  }

  /** The first n places from off on hold d, and nothing else has changed. */
  ghost predicate Written(s: seq<byte>, t: seq<byte>, off: nat, d: seq<byte>) {
    OnlyWrites(s, t, off, |d|) && t[off..off + |d|] == d
  }

  lemma WrittenMore(s: seq<byte>, t: seq<byte>, u: seq<byte>, off: nat, d: seq<byte>, e: seq<byte>)
    requires Written(s, t, off, d) && Written(t, u, off + |d|, e)
    ensures Written(s, u, off, d + e)
  {
    var n := off + |d|;
    assert u[off..n] == u[..n][off..] == t[..n][off..] == t[off..n];
    assert u[off..n + |e|] == u[off..n] + u[n..n + |e|];
    assert t[n + |e|..] == t[n..][|e|..] == s[n..][|e|..] == s[n + |e|..];
    assert u[..off] == u[..n][..off] == t[..n][..off] == t[..off];
  }

  method WriteItem(buffer: array<byte>, off: nat, item: Item) returns (next: nat)
    requires ValidItem(item) && off + |ItemBytes(item)| <= buffer.Length
    modifies buffer
    ensures next == off + |ItemBytes(item)| && Written(old(buffer[..]), buffer[..], off, ItemBytes(item))
  {
    ghost var s := buffer[..];
    buffer[off] := item.typ;
    buffer[off + 1] := |item.data|;
    ghost var t := buffer[..];
    assert Written(s, t, off, [item.typ, |item.data|]);
    CopyBytes(buffer, off + 2, item.data);
    WrittenMore(s, t, buffer[..], off, [item.typ, |item.data|], item.data);
    next := off + 2 + |item.data|;
  }

  lemma {:induction false} ItemsPrefixFits(items: seq<Item>, i: nat)
    requires i < |items| && forall j :: 0 <= j < |items| ==> ValidItem(items[j])
    ensures ItemsBytes(items[..i + 1]) == ItemsBytes(items[..i]) + ItemBytes(items[i])
    ensures |ItemsBytes(items[..i])| + |ItemBytes(items[i])| <= |ItemsBytes(items)|
    decreases |items| - i
  {
    assert items[..i + 1][..i] == items[..i];
    if i + 1 < |items| {
      ItemsPrefixFits(items, i + 1);
    } else {
      assert items[..i + 1] == items;
    }
  }

  /** The loop over the items of an entry. */
  method WriteItems(buffer: array<byte>, off: nat, items: seq<Item>) returns (next: nat)
    requires forall i :: 0 <= i < |items| ==> ValidItem(items[i])
    requires off + |ItemsBytes(items)| <= buffer.Length
    modifies buffer
    ensures next == off + |ItemsBytes(items)| && Written(old(buffer[..]), buffer[..], off, ItemsBytes(items))
  {
    hide Written, OnlyWrites;
    ghost var s := buffer[..];
    next := off;
    assert items[..0] == [];
    NothingWritten(s, off);
    for i := 0 to |items|
      invariant next == off + |ItemsBytes(items[..i])|
      invariant Written(s, buffer[..], off, ItemsBytes(items[..i]))
    {
      ItemsPrefixFits(items, i);
      ghost var t := buffer[..];
      next := WriteItem(buffer, next, items[i]);
      WrittenMore(s, t, buffer[..], off, ItemsBytes(items[..i]), ItemBytes(items[i]));
    }
    assert items[..|items|] == items;
  }

  lemma NothingWritten(s: seq<byte>, off: nat)
    requires off <= |s|
    ensures Written(s, s, off, [])
  {
  }

  /** serialize_entry. */
  method SerializeEntry(source: Entry, buffer: array<byte>, off: nat, size: nat) returns (ok: bool, written: nat)
    requires ValidEntry(source) && off + size <= buffer.Length
    modifies buffer
    ensures ok <==> EntrySize(source) <= size
    ensures ok ==> written == EntrySize(source) && Written(old(buffer[..]), buffer[..], off, EntryBytes(source))
    ensures ok ==> forall p :: off + 4 + |ItemsBytes(source.items)| <= p < off + written ==> buffer[p] == 0
    ensures !ok ==> buffer[..] == old(buffer[..])
  {
    hide OnlyWrites, ItemsBytes;
    written := ComputeEntrySize(source);
    if size < written {
      return false, 0;
    }
    ghost var s, id, items := buffer[..], EncodeU32(source.id), ItemsBytes(source.items);
    WriteU32(buffer, off, source.id);
    assert Written(s, buffer[..], off, id) by { IsWritten(s, buffer[..], off, id); }
    ghost var t := buffer[..];
    var next := WriteItems(buffer, off + 4, source.items);
    WrittenMore(s, t, buffer[..], off, id, items);
    ghost var u := buffer[..];
    PadZeros(buffer, next, off + written - next);
    WrittenMore(s, u, buffer[..], off, id + items, Zeros(off + written - next));
    ZerosAfterItems(buffer[..], off, source);
    return true, written;
  }

  /** A printed entry holds zeros from the end of its items on. */
  lemma ZerosAfterItems(b: seq<byte>, off: nat, e: Entry)
    requires ValidEntry(e) && off + EntrySize(e) <= |b| && b[off..off + EntrySize(e)] == EntryBytes(e)
    ensures forall p :: off + 4 + |ItemsBytes(e.items)| <= p < off + EntrySize(e) ==> b[p] == 0
  {
    hide ItemsBytes, EncodeU32;
    var w := b[off..off + EntrySize(e)];
    forall p | off + 4 + |ItemsBytes(e.items)| <= p < off + EntrySize(e) ensures b[p] == 0 {
      assert b[p] == w[p - off];
    }
  }

  lemma IsWritten(s: seq<byte>, t: seq<byte>, off: nat, d: seq<byte>)
    requires OnlyWrites(s, t, off, |d|) && off + |d| <= |t| && t[off..off + |d|] == d
    ensures Written(s, t, off, d)
  {
  }

  method PadZeros(buffer: array<byte>, off: nat, n: nat)
    requires off + n <= buffer.Length
    modifies buffer
    ensures Written(old(buffer[..]), buffer[..], off, Zeros(n))
  {
    var offset := off;
    while offset < off + n
      invariant off <= offset <= off + n
      invariant buffer[off..offset] == Zeros(n)[..offset - off]
      invariant buffer[..off] == old(buffer[..off]) && buffer[off + n..] == old(buffer[off + n..])
    {
      buffer[offset] := 0;
      offset := offset + 1;
    }
  }

  // ---------- packets ----------

  ghost predicate ValidPacket(h: Header, es: seq<Entry>) {
    ValidHeader(h) && h.count == |es| && ValidEntries(es)
  }

  ghost function PacketBytes(h: Header, es: seq<Entry>): (b: seq<byte>)
    requires ValidPacket(h, es)
    ensures |b| % 4 == 0
  {
    HeaderBytes(h) + EntriesBytes(es)
  }

  lemma {:induction false} EntriesPrefixFits(es: seq<Entry>, i: nat)
    requires i < |es| && ValidEntries(es)
    ensures EntriesBytes(es[..i + 1]) == EntriesBytes(es[..i]) + EntryBytes(es[i])
    ensures |EntriesBytes(es[..i])| + EntrySize(es[i]) <= |EntriesBytes(es)|
    decreases |es| - i
  {
    assert es[..i + 1][..i] == es[..i];
    if i + 1 < |es| {
      EntriesPrefixFits(es, i + 1);
    } else {
      assert es[..i + 1] == es;
    }
  }

  /** rtcp_header_serialize into the front of the buffer. */
  method SerializeHeader(header: Header, buffer: array<byte>, size: nat) returns (ok: bool)
    requires ValidHeader(header) && size <= buffer.Length
    modifies buffer
    ensures ok <==> size >= 4
    ensures ok ==> Written(old(buffer[..]), buffer[..], 0, HeaderBytes(header))
    ensures !ok ==> buffer[..] == old(buffer[..])
  {
    if size < 4 {
      return false;
    }
    buffer[0] := header.version * 64 + header.p * 32 + header.count;
    buffer[1] := header.pt;
    WriteU16(buffer, 2, header.length);
    assert buffer[0..4] == buffer[0..2] + buffer[2..4];
    return true;
  }

  /** The search of get_item. */
  method FindType(items: seq<Item>, typ: byte) returns (found: bool)
    ensures found <==> HasType(items, typ)
  {
    for i := 0 to |items|
      invariant forall j :: 0 <= j < i ==> items[j].typ != typ
    {
      if items[i].typ == typ {
        return true;
      }
    }
    return false;
  }

  datatype Status = Success | Failure | OutOfBounds

  /** The status of the parser for an outcome of its specification. */
  function StatusOf<T>(r: Outcome<T>): Status {
    match r
    case Parsed(_, _) => Success
    case Rejected => Failure
    case Overrun => OutOfBounds
  }

  /** The inner loop of rtcp_sdes_parse: the items of one entry. */
  method ReadItems(buffer: array<byte>, start: nat) returns (status: Status, items: seq<Item>, offset: nat)
    ensures status == StatusOf(ParseItems(buffer[..], start, []))
    ensures status == Success ==> ParseItems(buffer[..], start, []) == Parsed(items, offset)
  {
    items, offset := [], start;
    while true
      invariant ParseItems(buffer[..], start, []) == ParseItems(buffer[..], offset, items)
      decreases buffer.Length - offset
    {
      if offset >= buffer.Length {
        return OutOfBounds, items, offset;
      }
      var typ := buffer[offset];
      if typ == 0 {
        return Success, items, offset + (4 - offset % 4);
      }
      if offset + 1 >= buffer.Length {
        return OutOfBounds, items, offset;
      }
      var length: byte := buffer[offset + 1];
      var found := FindType(items, typ);
      if found || |items| == 0xff {
        return Failure, items, offset;
      }
      if offset + 2 + length > buffer.Length {
        return OutOfBounds, items, offset;
      }
      items := items + [Item(typ, buffer[offset + 2..offset + 2 + length])];
      offset := offset + 2 + length;
    }
  }

  /** The loop over the entries of a packet. */
  method WriteEntries(srcs: seq<Entry>, count: nat, buffer: array<byte>, off: nat, size: nat) returns (ok: bool)
    requires ValidEntries(srcs) && count == |srcs|
    requires off + |EntriesBytes(srcs)| <= size <= buffer.Length
    modifies buffer
    ensures ok && Written(old(buffer[..]), buffer[..], off, EntriesBytes(srcs))
  {
    hide Written, OnlyWrites, EntryBytes;
    ghost var s := buffer[..];
    var offset := off;
    assert srcs[..0] == [];
    NothingWritten(s, off);
    for i := 0 to count
      invariant offset == off + |EntriesBytes(srcs[..i])|
      invariant Written(s, buffer[..], off, EntriesBytes(srcs[..i]))
    {
      EntriesPrefixFits(srcs, i);
      ghost var t := buffer[..];
      var fits, result := SerializeEntry(srcs[i], buffer, offset, size - offset);
      WrittenMore(s, t, buffer[..], off, EntriesBytes(srcs[..i]), EntryBytes(srcs[i]));
      offset := offset + result;
    }
    assert srcs[..count] == srcs;
    return true;
  }

  class SdesPacket {
    var header: Header
    var srcs: seq<Entry>

    ghost predicate Valid()
      reads this
    {
      ValidPacket(header, srcs)
    }

    /** rtcp_sdes_create. */
    constructor ()
      ensures Valid() && header == Header(0, 0, 0, 0, 0) && srcs == []
    {
      header := Header(0, 0, 0, 0, 0);
      srcs := [];
    }

    /** rtcp_sdes_init. */
    method InitPacket()
      modifies this`header
      ensures header == old(header).(version := 2, pt := RTCP_SDES) && srcs == old(srcs)
    {
      header := header.(version := 2, pt := RTCP_SDES);
    }

    /** rtcp_sdes_size. */
    method Size() returns (size: nat)
      requires Valid()
      ensures size == |PacketBytes(header, srcs)|
    {
      size := 4;
      for i := 0 to header.count
        invariant size == 4 + |EntriesBytes(srcs[..i])|
      {
        EntriesPrefixFits(srcs, i);
        var s := ComputeEntrySize(srcs[i]);
        size := size + s;
      }
      assert srcs[..header.count] == srcs;
    }

    /** rtcp_sdes_serialize: writes exactly as many bytes as Size says, or nothing. */
    method Serialize(buffer: array<byte>, size: nat) returns (ok: bool, written: nat)
      requires Valid() && size <= buffer.Length
      modifies buffer
      ensures ok <==> |PacketBytes(header, srcs)| <= size
      ensures ok ==> written == |PacketBytes(header, srcs)|
      ensures ok ==> Written(old(buffer[..]), buffer[..], 0, PacketBytes(header, srcs))
      ensures !ok ==> buffer[..] == old(buffer[..])
    {
      hide Written, OnlyWrites;
      written := Size();
      if size < written {
        return false, 0;
      }
      ghost var s, h := buffer[..], HeaderBytes(header);
      ok := SerializeHeader(header, buffer, size);
      ghost var t := buffer[..];
      ok := WriteEntries(srcs, header.count, buffer, 4, size);
      WrittenMore(s, t, buffer[..], 0, h, EntriesBytes(srcs));
      return true, written;
    }

    /** rtcp_header_parse: refuses a header cut short or of another version, and gives the packet type. */
    method ParseHead(buffer: array<byte>, size: nat) returns (known: bool, pt: byte)
      requires size <= buffer.Length
      modifies this`header
      ensures size < 4 ==> !known && header == old(header)
      ensures size >= 4 ==> header == ParseHeader(buffer[..]) && (known <==> header.version == 2) && pt == header.pt
    {
      if size < 4 {
        return false, 0;
      }
      header := Header(buffer[0] / 64 % 4, buffer[0] / 32 % 2, buffer[0] % 32, buffer[1], ReadU16(buffer[..], 2));
      return header.version == 2, header.pt;
    }

    /** rtcp_sdes_parse. */
    method Parse(buffer: array<byte>, size: nat) returns (status: Status, ghost consumed: nat)
      requires size <= buffer.Length
      modifies this
      ensures size < 4 ==> status == Failure && header == old(header)
      ensures size >= 4 ==> header == ParseHeader(buffer[..])
      ensures size >= 4 && (header.version != 2 || header.pt != RTCP_SDES) ==> status == Failure && srcs == old(srcs)
      ensures size >= 4 && header.version == 2 && header.pt == RTCP_SDES && header.count == 0 ==>
        status == Success && srcs == old(srcs) && consumed == 4
      ensures size >= 4 && header.version == 2 && header.pt == RTCP_SDES && header.count > 0 ==>
        var r := ParseEntries(buffer[..], 4, header.count, []);
        status == StatusOf(r) && (status == Success ==> r == Parsed(srcs, consumed))
    {
      consumed := 4;
      var known, pt := ParseHead(buffer, size);
      if !known || pt != RTCP_SDES {
        return Failure, consumed;
      }
      if header.count > 0 {
        status, srcs, consumed := ReadEntries(buffer, header.count);
        return status, consumed;
      }
      return Success, consumed;
    }
  }

  /** The outer loop of rtcp_sdes_parse. */
  method ReadEntries(buffer: array<byte>, count: nat) returns (status: Status, srcs: seq<Entry>, ghost consumed: nat)
    ensures status == StatusOf(ParseEntries(buffer[..], 4, count, []))
    ensures status == Success ==> ParseEntries(buffer[..], 4, count, []) == Parsed(srcs, consumed)
  {
    srcs, consumed := [], 4;
    var offset: nat := 4;
    for i := 0 to count
      invariant ParseEntries(buffer[..], 4, count, []) == ParseEntries(buffer[..], offset, count - i, srcs)
    {
      if offset + 4 > buffer.Length {
        return OutOfBounds, srcs, consumed;
      }
      var id := ReadU32(buffer[..], offset);
      var itemStatus, items, next := ReadItems(buffer, offset + 4);
      if itemStatus != Success {
        return itemStatus, srcs, consumed;
      }
      srcs := srcs + [Entry(id, items)];
      offset := next;
    }
    return Success, srcs, offset;
  }
}
