/** What the SDES parser makes of a buffer: exactly the entries whose print it agrees with, of a printed packet
    the packet itself, and of a packet cut short an overrun. */
module SdesRoundTrip {
  import opened Pigeonhole
  import opened Bytes
  import opened Sdes

  // ---------- items ----------

  ghost predicate DistinctTypes(items: seq<Item>) {
    forall i, j :: 0 <= i < j < |items| ==> items[i].typ != items[j].typ
  }

  ghost predicate NonZeroTypes(items: seq<Item>) {
    forall i :: 0 <= i < |items| ==> items[i].typ != 0
  }

  lemma {:induction false} ItemsFromFront(items: seq<Item>)
    requires |items| > 0 && forall i :: 0 <= i < |items| ==> ValidItem(items[i])
    ensures ItemsBytes(items) == ItemBytes(items[0]) + ItemsBytes(items[1..])
  {
    hide ItemBytes;
    var n := |items| - 1;
    if n == 0 {
      assert items[..0] == [] && items[1..] == [];
    } else {
      ItemsFromFront(items[..n]);
      assert items[..n][1..] == items[1..][..n - 1];
      assert items[1..][n - 1] == items[n];
    }
  }

  lemma {:induction false} EntriesFromFront(es: seq<Entry>)
    requires |es| > 0 && ValidEntries(es)
    ensures EntriesBytes(es) == EntryBytes(es[0]) + EntriesBytes(es[1..])
  {
    hide EntryBytes, EntrySize;
    var n := |es| - 1;
    if n == 0 {
      assert es[..0] == [] && es[1..] == [];
    } else {
      EntriesFromFront(es[..n]);
      assert es[..n][1..] == es[1..][..n - 1];
      assert es[1..][n - 1] == es[n];
    }
  }

  /** 255 different non-zero types are all the non-zero types. */
  lemma AllTypesUsed(items: seq<Item>, typ: byte)
    requires |items| == 255 && DistinctTypes(items) && NonZeroTypes(items) && typ != 0
    ensures HasType(items, typ)
  {
    var s: seq<nat> := seq(255, i requires 0 <= i < 255 => items[i].typ - 1);
    Pigeons(s, typ - 1);
  }

  lemma DuplicateRejected(done: seq<Item>, todo: seq<Item>)
    requires |todo| > 0 && HasType(done, todo[0].typ)
    ensures !DistinctTypes(done + todo)
  {
    var i :| 0 <= i < |done| && done[i].typ == todo[0].typ;
    var all := done + todo;
    assert all[i].typ == all[|done|].typ;
  }

  /** Items as round trips need them: non-zero types and lengths that fit a byte. */
  ghost predicate Printable(items: seq<Item>) {
    NonZeroTypes(items) && forall i :: 0 <= i < |items| ==> ValidItem(items[i])
  }

  lemma PrintableRest(items: seq<Item>)
    requires |items| > 0 && Printable(items)
    ensures Printable(items[1..]) && ValidItem(items[0]) && items[0].typ != 0
  {
  }

  lemma NoMoreItems(b: seq<byte>, off: nat, done: seq<Item>)
    requires off + |ItemsBytes([])| < |b| && b[off + |ItemsBytes([])|] == 0
    ensures ItemsBytes([]) == [] && done + [] == done && ParseItems(b, off, done) == Parsed(done, off + 4 - off % 4)
  {
    assert done + [] == done;
  }

  /** Parsing the bytes of items followed by a zero. */
  lemma {:induction false} ItemsRoundTrip(b: seq<byte>, off: nat, done: seq<Item>, todo: seq<Item>)
    requires NonZeroTypes(done) && DistinctTypes(done) && |done| <= 255 && Printable(todo)
    requires off + |ItemsBytes(todo)| < |b| && b[off..off + |ItemsBytes(todo)|] == ItemsBytes(todo)
    requires b[off + |ItemsBytes(todo)|] == 0
    ensures var end := off + |ItemsBytes(todo)|;
      ParseItems(b, off, done) ==
        if DistinctTypes(done + todo) then Parsed(done + todo, end + 4 - end % 4) else Rejected
    decreases |todo|
  {
    hide ItemsBytes, ItemBytes, ParseItems, DistinctTypes, NonZeroTypes, HasType;
    if todo == [] {
      NoMoreItems(b, off, done);
    } else {
      var t, rest := todo[0], todo[1..];
      ItemsFromFront(todo);
      PrintableRest(todo);
      ItemAt(b, off, ItemsBytes(todo), t, ItemsBytes(rest));
      ItemLength(t);
      if HasType(done, t.typ) {
        DuplicateRejected(done, todo);
      } else {
        MoreTypes(done, t);
        ItemsRoundTrip(b, off + 2 + |t.data|, done + [t], rest);
        assert done + todo == done + [t] + rest;
      }
      ItemsStep(b, off, done, t);
    }
  }

  lemma ItemLength(t: Item)
    requires ValidItem(t)
    ensures |ItemBytes(t)| == 2 + |t.data|
  {
  }

  lemma MoreTypes(done: seq<Item>, t: Item)
    requires NonZeroTypes(done) && DistinctTypes(done) && t.typ != 0 && !HasType(done, t.typ) && |done| <= 255
    ensures NonZeroTypes(done + [t]) && DistinctTypes(done + [t]) && |done| < 255
  {
    if |done| == 255 {
      AllTypesUsed(done, t.typ);
    }
  }

  /** What the parser does with one item. */
  lemma ItemsStep(b: seq<byte>, off: nat, done: seq<Item>, t: Item)
    requires ValidItem(t) && t.typ != 0 && off + 2 + |t.data| <= |b|
    requires b[off] == t.typ && b[off + 1] == |t.data| && b[off + 2..off + 2 + |t.data|] == t.data
    ensures ParseItems(b, off, done) ==
      if HasType(done, t.typ) || |done| == 255 then Rejected else ParseItems(b, off + 2 + |t.data|, done + [t])
  {
    hide HasType;
  }

  /** A part of a slice is a slice. */
  lemma PartOfSlice(b: seq<byte>, off: nat, all: seq<byte>, i: nat, n: nat)
    requires off + |all| <= |b| && b[off..off + |all|] == all && i + n <= |all|
    ensures b[off + i..off + i + n] == all[i..i + n]
    ensures n > 0 ==> b[off + i] == all[i]
  {
    var w, u, v := b[off..off + |all|], b[off + i..off + i + n], all[i..i + n];
    forall j | 0 <= j < n ensures u[j] == v[j] {
      assert w[i + j] == b[off + (i + j)];
    }
    if n > 0 {
      assert u[0] == v[0];
    }
  }

  /** Where the parts of the first item lie. */
  lemma ItemAt(b: seq<byte>, off: nat, all: seq<byte>, t: Item, others: seq<byte>)
    requires ValidItem(t) && all == ItemBytes(t) + others
    requires off + |all| <= |b| && b[off..off + |all|] == all
    ensures b[off] == t.typ && b[off + 1] == |t.data| && b[off + 2..off + 2 + |t.data|] == t.data
    ensures b[off + |ItemBytes(t)|..off + |all|] == others
  {
    PartOfSlice(b, off, all, 0, 1);
    PartOfSlice(b, off, all, 1, 1);
    PartOfSlice(b, off, all, 2, |t.data|);
    PartOfSlice(b, off, all, |ItemBytes(t)|, |others|);
    assert all[2..2 + |t.data|] == t.data;
    assert all[|ItemBytes(t)|..] == others;
  }

  /** The parser's view of a buffer: the items it finds are legal and their print is there, with a zero after. */
  lemma {:induction false} ItemsSound(b: seq<byte>, off: nat, done: seq<Item>) returns (todo: seq<Item>)
    requires ParseItems(b, off, done).Parsed?
    requires NonZeroTypes(done) && DistinctTypes(done) && |done| <= 255
    ensures Printable(todo) && DistinctTypes(done + todo) && |done + todo| <= 255
    ensures var end := off + |ItemsBytes(todo)|;
      && end < |b| && b[off..end] == ItemsBytes(todo) && b[end] == 0
      && ParseItems(b, off, done) == Parsed(done + todo, end + 4 - end % 4)
    decreases |b| - off
  {
    hide ParseItems, ItemsBytes, NonZeroTypes, DistinctTypes, HasType, Printable;
    SomeByte(b, off, done);
    if b[off] == 0 {
      todo := [];
      NoneFound(b, off, done);
    } else {
      FirstItem(b, off, done);
      var n: nat := b[off + 1];
      var t := Item(b[off], b[off + 2..off + 2 + n]);
      MoreTypes(done, t);
      var rest := ItemsSound(b, off + 2 + n, done + [t]);
      todo := [t] + rest;
      assert done + todo == done + [t] + rest;
      PrintableMore(t, rest);
      ItemsJoin(b, off, t, rest);
    }
  }

  lemma SomeByte(b: seq<byte>, off: nat, done: seq<Item>)
    requires ParseItems(b, off, done).Parsed?
    ensures off < |b|
  {
    hide HasType;
  }

  lemma NoneFound(b: seq<byte>, off: nat, done: seq<Item>)
    requires off < |b| && b[off] == 0
    ensures Printable([]) && ItemsBytes([]) == [] && done + [] == done
    ensures ParseItems(b, off, done) == Parsed(done, off + 4 - off % 4)
  {
    hide HasType;
  }

  /** What the parser has checked before it takes an item. */
  lemma FirstItem(b: seq<byte>, off: nat, done: seq<Item>)
    requires ParseItems(b, off, done).Parsed? && off < |b| && b[off] != 0
    ensures off + 1 < |b| && off + 2 + b[off + 1] <= |b| && !HasType(done, b[off]) && |done| != 255
    ensures ParseItems(b, off, done) ==
      ParseItems(b, off + 2 + b[off + 1], done + [Item(b[off], b[off + 2..off + 2 + b[off + 1]])])
  {
    hide HasType;
  }

  lemma PrintableMore(t: Item, rest: seq<Item>)
    requires ValidItem(t) && t.typ != 0 && Printable(rest)
    ensures Printable([t] + rest)
  {
  }

  lemma ItemsJoin(b: seq<byte>, off: nat, t: Item, rest: seq<Item>)
    requires ValidItem(t) && Printable(rest) && off + 2 + |t.data| + |ItemsBytes(rest)| <= |b|
    requires b[off] == t.typ && b[off + 1] == |t.data| && b[off + 2..off + 2 + |t.data|] == t.data
    requires b[off + 2 + |t.data|..off + 2 + |t.data| + |ItemsBytes(rest)|] == ItemsBytes(rest)
    ensures forall i :: 0 <= i < |[t] + rest| ==> ValidItem(([t] + rest)[i])
    ensures |ItemsBytes([t] + rest)| == 2 + |t.data| + |ItemsBytes(rest)|
    ensures b[off..off + 2 + |t.data| + |ItemsBytes(rest)|] == ItemsBytes([t] + rest)
  {
    hide ItemsBytes;
    ItemsFromFront([t] + rest);
    assert ([t] + rest)[1..] == rest;
    SlicesJoin(b, off, t, ItemsBytes(rest));
  }

  lemma SlicesJoin(b: seq<byte>, off: nat, t: Item, others: seq<byte>)
    requires ValidItem(t) && off + 2 + |t.data| + |others| <= |b|
    requires b[off] == t.typ && b[off + 1] == |t.data| && b[off + 2..off + 2 + |t.data|] == t.data
    requires b[off + 2 + |t.data|..off + 2 + |t.data| + |others|] == others
    ensures b[off..off + |ItemBytes(t) + others|] == ItemBytes(t) + others
  {
    var m := off + 2 + |t.data|;
    assert b[off..off + 2] == [t.typ, |t.data|];
    assert b[off..m] == b[off..off + 2] + b[off + 2..m];
    assert b[off..m + |others|] == b[off..m] + b[m..m + |others|];
  }

  /** Items cut off at or before the zero after them are read past the end. */
  lemma {:induction false} ItemsCut(b: seq<byte>, m: nat, off: nat, done: seq<Item>, todo: seq<Item>)
    requires NonZeroTypes(done) && DistinctTypes(done + todo) && |done| <= 255 && Printable(todo)
    requires off + |ItemsBytes(todo)| <= |b| && b[off..off + |ItemsBytes(todo)|] == ItemsBytes(todo)
    requires m <= |b| && m <= off + |ItemsBytes(todo)|
    ensures ParseItems(b[..m], off, done) == Overrun
    decreases |todo|
  {
    hide ItemsBytes, ItemBytes, NonZeroTypes, DistinctTypes, HasType, ParseItems;
    if m <= off {
      NothingLeft(b[..m], off, done);
    } else {
      if todo == [] {
        NoItemBytes();
      } else {
        var t, rest := todo[0], todo[1..];
        ItemsFromFront(todo);
        PrintableRest(todo);
        ItemAt(b, off, ItemsBytes(todo), t, ItemsBytes(rest));
        ItemLength(t);
        assert done + todo == done + [t] + rest;
        DistinctPrefix(done + [t], rest);
        DistinctPrefix(done, [t]);
        DistinctLast(done, t);
        MoreTypes(done, t);
        ItemCutStep(b, m, off, done, t);
        if off + 2 + |t.data| <= m {
          ItemsCut(b, m, off + 2 + |t.data|, done + [t], rest);
        }
      }
    }
  }

  lemma NothingLeft(b: seq<byte>, off: nat, done: seq<Item>)
    requires |b| <= off
    ensures ParseItems(b, off, done) == Overrun
  {
  }

  lemma NoItemBytes()
    ensures ItemsBytes([]) == []
  {
  }

  lemma DistinctPrefix(items: seq<Item>, more: seq<Item>)
    requires DistinctTypes(items + more)
    ensures DistinctTypes(items)
  {
    var all := items + more;
    forall i, j | 0 <= i < j < |items| ensures items[i].typ != items[j].typ {
      assert all[i] == items[i] && all[j] == items[j];
    }
  }

  lemma DistinctLast(items: seq<Item>, t: Item)
    requires DistinctTypes(items + [t])
    ensures !HasType(items, t.typ)
  {
    if HasType(items, t.typ) {
      DuplicateRejected(items, [t]);
    }
  }

  /** One item of a buffer cut at m, somewhere after its type. */
  lemma ItemCutStep(b: seq<byte>, m: nat, off: nat, done: seq<Item>, t: Item)
    requires ValidItem(t) && t.typ != 0 && off + 2 + |t.data| <= |b| && off < m <= |b|
    requires b[off] == t.typ && b[off + 1] == |t.data| && b[off + 2..off + 2 + |t.data|] == t.data
    requires !HasType(done, t.typ) && |done| < 255
    ensures ParseItems(b[..m], off, done) ==
      if off + 2 + |t.data| <= m then ParseItems(b[..m], off + 2 + |t.data|, done + [t]) else Overrun
  {
    hide HasType;
    if off + 2 + |t.data| <= m {
      assert b[..m][off + 2..off + 2 + |t.data|] == t.data;
    }
  }

  // ---------- entries ----------

  /** Where the zero after the items of an entry stands. */
  function Terminator(e: Entry): nat
    requires ValidEntry(e)
  {
    4 + |ItemsBytes(e.items)|
  }

  /** The buffer agrees with the print of the entry up to that zero; the padding after it may be anything. */
  ghost predicate EntryMatches(b: seq<byte>, off: nat, e: Entry) {
    && ValidEntry(e) && off + Terminator(e) < |b|
    && b[off..off + 4] == EncodeU32(e.id)
    && b[off + 4..off + Terminator(e)] == ItemsBytes(e.items)
    && b[off + Terminator(e)] == 0
  }

  /** The same for entries one after the other. */
  ghost predicate EntriesMatch(b: seq<byte>, off: nat, es: seq<Entry>)
    decreases |es|
  {
    es == [] || (EntryMatches(b, off, es[0]) && EntriesMatch(b, off + EntrySize(es[0]), es[1..]))
  }

  ghost predicate AllNonZero(es: seq<Entry>) {
    forall i :: 0 <= i < |es| ==> NonZeroTypes(es[i].items)
  }

  ghost predicate AllDistinct(es: seq<Entry>) {
    forall i :: 0 <= i < |es| ==> DistinctTypes(es[i].items)
  }

  /** What the parser may return: fields that fit, non-zero types, none twice in an entry. */
  ghost predicate Legal(es: seq<Entry>) {
    ValidEntries(es) && AllNonZero(es) && AllDistinct(es)
  }

  /** The first bytes of a printed entry are what EntryMatches asks for. */
  lemma MatchesIsPrint(b: seq<byte>, off: nat, e: Entry)
    requires ValidEntry(e)
    ensures Terminator(e) < EntrySize(e)
    ensures EntryMatches(b, off, e) <==>
      off + Terminator(e) < |b| && b[off..off + Terminator(e) + 1] == EntryBytes(e)[..Terminator(e) + 1]
  {
    var n := Terminator(e);
    var all := EntryBytes(e)[..n + 1];
    assert all == EncodeU32(e.id) + ItemsBytes(e.items) + [0];
    if off + n < |b| {
      assert b[off..off + n + 1] == b[off..off + 4] + b[off + 4..off + n] + [b[off + n]];
    }
    if off + n < |b| && b[off..off + n + 1] == all {
      PartOfSlice(b, off, all, 0, 4);
      PartOfSlice(b, off, all, 4, n - 4);
      PartOfSlice(b, off, all, n, 1);
    }
  }

  lemma NoItemsYet()
    ensures NonZeroTypes([]) && DistinctTypes([])
  {
  }

  lemma PrintableItems(e: Entry)
    requires ValidEntry(e)
    ensures Printable(e.items) <==> NonZeroTypes(e.items)
  {
  }

  lemma NextMultiple(off: nat, n: nat)
    requires off % 4 == 0
    ensures off + n + 4 - (off + n) % 4 == off + Padded(n + 1)
  {
  }

  lemma EntryRoundTrip(b: seq<byte>, off: nat, e: Entry)
    requires EntryMatches(b, off, e) && NonZeroTypes(e.items) && off % 4 == 0
    ensures ParseEntry(b, off) == if DistinctTypes(e.items) then Parsed(e, off + EntrySize(e)) else Rejected
  {
    hide EntryBytes, ItemsBytes, ParseItems, ReadU32, DistinctTypes;
    U32RoundTrip(e.id, b, off);
    NoItemsYet();
    PrintableItems(e);
    ItemsRoundTrip(b, off + 4, [], e.items);
    assert [] + e.items == e.items;
    NextMultiple(off, Terminator(e));
  }

  lemma EntrySound(b: seq<byte>, off: nat)
    requires ParseEntry(b, off).Parsed? && off % 4 == 0
    ensures var e := ParseEntry(b, off).value;
      EntryMatches(b, off, e) && NonZeroTypes(e.items) && DistinctTypes(e.items) &&
      ParseEntry(b, off) == Parsed(e, off + EntrySize(e))
  {
    hide ItemsBytes, ParseItems, ReadU32, DistinctTypes, EntryBytes;
    NoItemsYet();
    var items := ItemsSound(b, off + 4, []);
    assert [] + items == items;
    var e := Entry(ReadU32(b, off), items);
    EncodeOfRead(b, off);
    NextMultiple(off, Terminator(e));
  }

  lemma EntryCut(b: seq<byte>, m: nat, off: nat, e: Entry)
    requires EntryMatches(b, off, e) && NonZeroTypes(e.items) && DistinctTypes(e.items)
    requires m <= |b| && m <= off + Terminator(e)
    ensures ParseEntry(b[..m], off) == Overrun
  {
    hide ItemsBytes, ParseItems, ReadU32, DistinctTypes, EntryBytes;
    if off + 4 <= m {
      NoItemsYet();
      PrintableItems(e);
      assert [] + e.items == e.items;
      ItemsCut(b, m, off + 4, [], e.items);
    }
  }

  /** Cutting after the zero leaves a match. */
  lemma EntryKept(b: seq<byte>, m: nat, off: nat, e: Entry)
    requires EntryMatches(b, off, e) && off + Terminator(e) < m <= |b|
    ensures EntryMatches(b[..m], off, e)
  {
    assert b[..m][off..off + 4] == b[off..off + 4];
    assert b[..m][off + 4..off + Terminator(e)] == b[off + 4..off + Terminator(e)];
  }

  /** Where the first entry and the others lie. */
  lemma EntriesAt(b: seq<byte>, off: nat, todo: seq<Entry>)
    requires |todo| > 0 && ValidEntries(todo)
    requires off + |EntriesBytes(todo)| <= |b| && b[off..off + |EntriesBytes(todo)|] == EntriesBytes(todo)
    ensures ValidEntry(todo[0]) && ValidEntries(todo[1..]) && EntrySize(todo[0]) % 4 == 0
    ensures EntrySize(todo[0]) + |EntriesBytes(todo[1..])| == |EntriesBytes(todo)|
    ensures b[off..off + EntrySize(todo[0])] == EntryBytes(todo[0])
    ensures b[off + EntrySize(todo[0])..off + |EntriesBytes(todo)|] == EntriesBytes(todo[1..])
  {
    hide EntryBytes, EntriesBytes;
    var first, others, all := EntryBytes(todo[0]), EntriesBytes(todo[1..]), EntriesBytes(todo);
    EntriesFromFront(todo);
    PartOfSlice(b, off, all, 0, |first|);
    PartOfSlice(b, off, all, |first|, |others|);
    assert all[0..|first|] == first;
    assert all[|first|..|first| + |others|] == others;
  }

  /** Printed entries match. */
  lemma {:induction false} PrintedMatch(b: seq<byte>, off: nat, es: seq<Entry>)
    requires ValidEntries(es)
    requires off + |EntriesBytes(es)| <= |b| && b[off..off + |EntriesBytes(es)|] == EntriesBytes(es)
    ensures EntriesMatch(b, off, es)
    decreases |es|
  {
    hide EntryBytes, EntriesBytes, EntryMatches, Terminator, EntrySize;
    if es != [] {
      var e := es[0];
      EntriesAt(b, off, es);
      MatchesIsPrint(b, off, e);
      PartOfSlice(b, off, EntryBytes(e), 0, Terminator(e) + 1);
      PrintedMatch(b, off + EntrySize(e), es[1..]);
    }
  }

  /** Each entry is filled up with zeros from the end of its items on. */
  ghost predicate ZeroPadded(b: seq<byte>, off: nat, es: seq<Entry>)
    requires ValidEntries(es)
    decreases |es|
  {
    es == [] ||
    (off + EntrySize(es[0]) <= |b| &&
     (forall p :: off + Terminator(es[0]) <= p < off + EntrySize(es[0]) ==> b[p] == 0) &&
     ZeroPadded(b, off + EntrySize(es[0]), es[1..]))
  }

  /** Printed entries are. */
  lemma {:induction false} PrintedPadded(b: seq<byte>, off: nat, es: seq<Entry>)
    requires ValidEntries(es)
    requires off + |EntriesBytes(es)| <= |b| && b[off..off + |EntriesBytes(es)|] == EntriesBytes(es)
    ensures ZeroPadded(b, off, es)
    decreases |es|
  {
    hide EntryBytes, EntriesBytes, EntrySize;
    if es != [] {
      EntriesAt(b, off, es);
      ZerosAfterItems(b, off, es[0]);
      PrintedPadded(b, off + EntrySize(es[0]), es[1..]);
    }
  }

  lemma NoEntries(b: seq<byte>, off: nat, done: seq<Entry>)
    ensures EntriesBytes([]) == [] && AllDistinct([]) && ParseEntries(b, off, 0, done) == Parsed(done + [], off)
  {
    assert done + [] == done;
  }

  lemma SumOfMultiples(m: nat, n: nat)
    requires m % 4 == 0 && n % 4 == 0
    ensures (m + n) % 4 == 0
  {
  }

  /** One entry, then the others. */
  lemma EntriesStep(b: seq<byte>, off: nat, done: seq<Entry>, todo: seq<Entry>, next: nat, end: nat)
    requires |todo| > 0
    requires ParseEntry(b, off) == if DistinctTypes(todo[0].items) then Parsed(todo[0], next) else Rejected
    requires ParseEntries(b, next, |todo| - 1, done + [todo[0]]) ==
      if AllDistinct(todo[1..]) then Parsed(done + [todo[0]] + todo[1..], end) else Rejected
    ensures ParseEntries(b, off, |todo|, done) == if AllDistinct(todo) then Parsed(done + todo, end) else Rejected
  {
    hide ParseEntry, DistinctTypes, AllDistinct;
    AllDistinctFront(todo);
    assert done + todo == done + [todo[0]] + todo[1..];
  }

  lemma SplitFirst(b: seq<byte>, off: nat, es: seq<Entry>)
    requires |es| > 0 && EntriesMatch(b, off, es) && off % 4 == 0
    ensures EntryMatches(b, off, es[0]) && ValidEntry(es[0])
    ensures EntriesMatch(b, off + EntrySize(es[0]), es[1..]) && (off + EntrySize(es[0])) % 4 == 0
  {
    SumOfMultiples(off, EntrySize(es[0]));
  }

  lemma {:induction false} MatchIsValid(b: seq<byte>, off: nat, es: seq<Entry>)
    requires EntriesMatch(b, off, es)
    ensures ValidEntries(es)
    decreases |es|
  {
    if es != [] {
      MatchIsValid(b, off + EntrySize(es[0]), es[1..]);
      assert forall i :: 1 <= i < |es| ==> es[i] == es[1..][i - 1];
    }
  }

  /** Parsing entries that match the buffer. */
  lemma {:induction false} EntriesRoundTrip(b: seq<byte>, off: nat, done: seq<Entry>, todo: seq<Entry>)
    requires EntriesMatch(b, off, todo) && ValidEntries(todo) && AllNonZero(todo) && off % 4 == 0
    ensures ParseEntries(b, off, |todo|, done) ==
      if AllDistinct(todo) then Parsed(done + todo, off + |EntriesBytes(todo)|) else Rejected
    decreases |todo|
  {
    hide EntryBytes, EntriesBytes, EntrySize, ParseEntry, ParseEntries, DistinctTypes, AllDistinct, NonZeroTypes,
      EntriesMatch, EntryMatches;
    if todo == [] {
      NoEntries(b, off, done);
    } else {
      var next := off + EntrySize(todo[0]);
      SplitFirst(b, off, todo);
      EntriesFromFront(todo);
      EntryRoundTrip(b, off, todo[0]);
      EntriesRoundTrip(b, next, done + [todo[0]], todo[1..]);
      EntriesStep(b, off, done, todo, next, off + |EntriesBytes(todo)|);
    }
  }

  lemma AllDistinctFront(es: seq<Entry>)
    requires |es| > 0
    ensures AllDistinct(es) <==> DistinctTypes(es[0].items) && AllDistinct(es[1..])
  {
    hide DistinctTypes;
    assert forall i :: 1 <= i < |es| ==> es[i] == es[1..][i - 1];
  }

  lemma LegalMore(e: Entry, rest: seq<Entry>)
    requires ValidEntry(e) && NonZeroTypes(e.items) && DistinctTypes(e.items) && Legal(rest)
    ensures Legal([e] + rest)
  {
  }

  lemma MatchMore(b: seq<byte>, off: nat, e: Entry, rest: seq<Entry>)
    requires EntryMatches(b, off, e) && EntriesMatch(b, off + EntrySize(e), rest)
    ensures EntriesMatch(b, off, [e] + rest)
  {
    assert ([e] + rest)[1..] == rest;
  }

  /** What the parser does with the first entry. */
  lemma FirstEntry(b: seq<byte>, off: nat, n: nat, done: seq<Entry>)
    requires n > 0 && ParseEntries(b, off, n, done).Parsed?
    ensures ParseEntry(b, off).Parsed?
    ensures var r := ParseEntry(b, off);
      ParseEntries(b, off, n, done) == ParseEntries(b, r.offset, n - 1, done + [r.value])
  {
    hide ParseEntry;
  }

  /** Any entries the parser returns are legal, match the buffer, and end where their print would. */
  lemma {:induction false} EntriesSound(b: seq<byte>, off: nat, n: nat, done: seq<Entry>) returns (todo: seq<Entry>)
    requires ParseEntries(b, off, n, done).Parsed? && off % 4 == 0
    ensures |todo| == n && Legal(todo) && EntriesMatch(b, off, todo)
    ensures ParseEntries(b, off, n, done) == Parsed(done + todo, off + |EntriesBytes(todo)|)
    decreases n
  {
    hide EntryBytes, EntriesBytes, EntrySize, ParseEntry, EntryMatches, Legal, DistinctTypes, NonZeroTypes;
    if n == 0 {
      todo := [];
      NoEntries(b, off, done);
      NothingIllegal();
    } else {
      FirstEntry(b, off, n, done);
      EntrySound(b, off);
      var e := ParseEntry(b, off).value;
      EntryIsAligned(b, off, e);
      var rest := EntriesSound(b, off + EntrySize(e), n - 1, done + [e]);
      todo := [e] + rest;
      LegalMore(e, rest);
      MatchMore(b, off, e, rest);
      LegalIsValid(todo);
      EntriesFromFront(todo);
      assert todo[1..] == rest;
      assert done + todo == done + [e] + rest;
    }
  }

  lemma NothingIllegal()
    ensures Legal([])
  {
  }

  lemma LegalIsValid(es: seq<Entry>)
    requires Legal(es)
    ensures ValidEntries(es) && AllNonZero(es) && AllDistinct(es)
  {
  }

  lemma EntryIsAligned(b: seq<byte>, off: nat, e: Entry)
    requires EntryMatches(b, off, e) && off % 4 == 0
    ensures ValidEntry(e) && (off + EntrySize(e)) % 4 == 0
  {
    SumOfMultiples(off, EntrySize(e));
  }

  /** For every buffer: parsing n entries succeeds with es exactly if es are n legal entries whose print agrees
      with the buffer up to padding, and it then ends, at a multiple of four, where that print would. */
  lemma ParsedExactly(b: seq<byte>, off: nat, n: nat, es: seq<Entry>, end: nat)
    requires off % 4 == 0
    ensures ParseEntries(b, off, n, []) == Parsed(es, end) <==>
      |es| == n && Legal(es) && EntriesMatch(b, off, es) && end == off + |EntriesBytes(es)|
  {
    hide EntriesBytes, ParseEntries, EntriesMatch, AllDistinct, AllNonZero;
    if ParseEntries(b, off, n, []) == Parsed(es, end) {
      var todo := EntriesSound(b, off, n, []);
      assert [] + todo == todo;
    }
    if |es| == n && Legal(es) && EntriesMatch(b, off, es) {
      EntriesRoundTrip(b, off, [], es);
      assert [] + es == es;
    }
  }

  // ---------- buffers cut short ----------

  /** Where the zero after the items of the last entry stands, from the start of the first. */
  ghost function LastTerminator(es: seq<Entry>): nat
    requires |es| > 0 && ValidEntries(es)
    decreases |es|
  {
    if |es| == 1 then Terminator(es[0]) else EntrySize(es[0]) + LastTerminator(es[1..])
  }

  lemma LegalRest(es: seq<Entry>)
    requires |es| > 0 && Legal(es)
    ensures ValidEntry(es[0]) && NonZeroTypes(es[0].items) && DistinctTypes(es[0].items) && Legal(es[1..])
  {
    hide DistinctTypes, NonZeroTypes, ValidEntry;
    assert forall i :: 1 <= i < |es| ==> es[i] == es[1..][i - 1];
  }

  lemma OneEntryMore(b: seq<byte>, off: nat, n: nat, done: seq<Entry>)
    requires n > 0
    ensures ParseEntries(b, off, n, done) ==
      match ParseEntry(b, off)
      case Parsed(e, next) => ParseEntries(b, next, n - 1, done + [e])
      case Rejected => Rejected
      case Overrun => Overrun
  {
    hide ParseEntry;
  }

  /** Entries in a buffer cut to m bytes: read past the end exactly if the cut takes the last zero away. */
  lemma {:induction false} EntriesCut(b: seq<byte>, m: nat, off: nat, done: seq<Entry>, todo: seq<Entry>)
    requires |todo| > 0 && Legal(todo) && EntriesMatch(b, off, todo) && off % 4 == 0 && m <= |b|
    ensures ValidEntries(todo)
    ensures ParseEntries(b[..m], off, |todo|, done) ==
      if off + LastTerminator(todo) < m then Parsed(done + todo, off + |EntriesBytes(todo)|) else Overrun
    decreases |todo|
  {
    hide EntryBytes, EntriesBytes, EntrySize, ParseEntry, ParseEntries, DistinctTypes, NonZeroTypes, EntriesMatch,
      EntryMatches, Legal, Terminator;
    LegalIsValid(todo);
    var e, rest := todo[0], todo[1..];
    LegalRest(todo);
    SplitFirst(b, off, todo);
    EntriesFromFront(todo);
    MatchesIsPrint(b, off, e);
    OneEntryMore(b[..m], off, |todo|, done);
    LastIsLater(todo);
    if m <= off + Terminator(e) {
      EntryCut(b, m, off, e);
    } else {
      EntryKept(b, m, off, e);
      EntryRoundTrip(b[..m], off, e);
      if rest == [] {
        NoEntries(b[..m], off + EntrySize(e), done + [e]);
        assert done + todo == done + [e] + [];
      } else {
        EntriesCut(b, m, off + EntrySize(e), done + [e], rest);
        assert done + todo == done + [e] + rest;
      }
    }
  }

  lemma LastIsLater(es: seq<Entry>)
    requires |es| > 0 && ValidEntries(es)
    ensures Terminator(es[0]) <= LastTerminator(es)
    ensures |es| == 1 ==> LastTerminator(es) == Terminator(es[0])
    ensures |es| > 1 ==> LastTerminator(es) == EntrySize(es[0]) + LastTerminator(es[1..])
  {
  }

  // ---------- packets ----------

  lemma HeaderRoundTrip(b: seq<byte>, h: Header)
    requires ValidHeader(h) && |b| >= 4 && b[..4] == HeaderBytes(h)
    ensures ParseHeader(b) == h
  {
    var w := b[..4];
    assert b[0] == w[0] && b[1] == w[1];
    assert b[2..4] == w[2..] == EncodeU16(h.length);
    U16RoundTrip(h.length, b, 2);
  }

  /** Headers ordered by version, padding flag, count, type and length, the first that differs deciding. */
  predicate Before(g: Header, h: Header) {
    if g.version != h.version then g.version < h.version
    else if g.p != h.p then g.p < h.p
    else if g.count != h.count then g.count < h.count
    else if g.pt != h.pt then g.pt < h.pt
    else g.length < h.length
  }

  /** Printed headers are ordered like their bytes, so each field lies where it is more significant than those
      after it. */
  lemma HeaderOrder(g: Header, h: Header)
    requires ValidHeader(g) && ValidHeader(h)
    ensures Before(g, h) <==> Less(HeaderBytes(g), HeaderBytes(h))
  {
    var a, b := HeaderBytes(g), HeaderBytes(h);
    LessByFirst(a, b);
    LessByFirst(a[1..], b[1..]);
    U16Order(g.length, h.length);
    hide Less;
    assert a[1..][1..] == EncodeU16(g.length) && b[1..][1..] == EncodeU16(h.length);
    FirstByteOrder(g, h);
  }

  lemma FirstByteOrder(g: Header, h: Header)
    requires ValidHeader(g) && ValidHeader(h)
    ensures var v, w := HeaderBytes(g)[0], HeaderBytes(h)[0];
      && (v == w <==> (g.version, g.p, g.count) == (h.version, h.p, h.count))
      && (v < w <==> g.version < h.version || (g.version == h.version &&
                     (g.p < h.p || (g.p == h.p && g.count < h.count))))
  {
  }

  lemma PacketInBuffer(h: Header, es: seq<Entry>, b: seq<byte>)
    requires ValidPacket(h, es)
    requires |PacketBytes(h, es)| <= |b| && b[..|PacketBytes(h, es)|] == PacketBytes(h, es)
    ensures |b| >= 4 && ParseHeader(b) == h && EntriesMatch(b, 4, es)
  {
    hide EntriesMatch;
    var all := PacketBytes(h, es);
    assert b[..4] == b[..|all|][..4] == HeaderBytes(h);
    HeaderRoundTrip(b, h);
    assert b[4..4 + |EntriesBytes(es)|] == b[..|all|][4..] == EntriesBytes(es);
    PrintedMatch(b, 4, es);
  }

  /** Prints a packet, as version 2 and type SDES, and parses the bytes into a new one. That yields the same
      packet and consumes exactly the bytes printed if and only if the entries are legal: no item of type 0, which
      ends an entry, and no type twice in one. Without items of type 0, anything else is refused. */
  method PrintAndParse(packet: SdesPacket, buffer: array<byte>, size: nat)
    returns (copy: SdesPacket, printed: bool, status: Status, ghost consumed: nat)
    requires packet.Valid() && size <= buffer.Length
    modifies buffer, packet`header
    ensures packet.Valid() && packet.srcs == old(packet.srcs)
    ensures packet.header == old(packet.header).(version := 2, pt := RTCP_SDES)
    ensures printed <==> |PacketBytes(packet.header, packet.srcs)| <= size
    ensures printed ==> copy.header == packet.header
    ensures printed ==>
      (status == Success && copy.srcs == packet.srcs && consumed == |PacketBytes(packet.header, packet.srcs)| <==>
       Legal(packet.srcs))
    ensures printed && AllNonZero(packet.srcs) ==> status == if Legal(packet.srcs) then Success else Failure
  {
    packet.InitPacket();
    copy := new SdesPacket();
    status, consumed := Failure, 0;
    var written;
    printed, written := packet.Serialize(buffer, size);
    if printed {
      PrintedOutcome(packet.header, packet.srcs, buffer[..]);
      status, consumed := copy.Parse(buffer, size);
    }
  }

  /** What parsing the entries of a printed packet gives. */
  lemma PrintedOutcome(h: Header, es: seq<Entry>, b: seq<byte>)
    requires ValidPacket(h, es)
    requires |PacketBytes(h, es)| <= |b| && b[..|PacketBytes(h, es)|] == PacketBytes(h, es)
    ensures |b| >= 4 && ParseHeader(b) == h
    ensures ParseEntries(b, 4, |es|, []) == Parsed(es, |PacketBytes(h, es)|) <==> Legal(es)
    ensures AllNonZero(es) && !Legal(es) ==> ParseEntries(b, 4, |es|, []) == Rejected
    ensures es == [] ==> Legal(es) && |PacketBytes(h, es)| == 4
  {
    hide ParseEntries, EntriesMatch;
    PacketInBuffer(h, es, b);
    ParsedExactly(b, 4, |es|, es, |PacketBytes(h, es)|);
    if AllNonZero(es) {
      EntriesRoundTrip(b, 4, [], es);
    }
  }

  /** A printed packet of legal entries, cut to m bytes of which the header is left: the parser reads past the
      end exactly if the zero of the last entry is gone; losing only its padding does no harm. */
  lemma CutPacket(h: Header, es: seq<Entry>, m: nat)
    requires ValidPacket(h, es) && Legal(es) && |es| > 0 && 4 <= m <= |PacketBytes(h, es)|
    ensures var b := PacketBytes(h, es)[..m];
      && ParseHeader(b) == h
      && ParseEntries(b, 4, |es|, []) ==
           if 4 + LastTerminator(es) < m then Parsed(es, |PacketBytes(h, es)|) else Overrun
  {
    hide EntriesMatch, Legal, LastTerminator, ParseEntries;
    var b := PacketBytes(h, es);
    assert b[..|b|] == b;
    PacketInBuffer(h, es, b);
    assert b[..m][..4] == b[..4] == HeaderBytes(h);
    HeaderRoundTrip(b[..m], h);
    EntriesCut(b, m, 4, [], es);
    assert [] + es == es;
  }

  /** Four bytes that promise one entry: the header is accepted and the entry read from beyond the buffer. */
  lemma HeaderAloneOverruns()
    ensures var b: seq<byte> := [0x81, 202, 0, 0];
      && ParseHeader(b) == Header(2, 0, 1, RTCP_SDES, 0)
      && ParseEntries(b, 4, 1, []) == Overrun
  {
  }
}
