/** Which buffers the SDES parser refuses, which it reads past the end of, and how many zeros after a buffer
    prevent that. */
module SdesOutcome {
  import opened Bytes
  import opened Sdes
  import opened SdesRoundTrip

  // ---------- where the items of an entry stop ----------

  /** The print of the items is in the buffer from off on. */
  ghost predicate Stand(b: seq<byte>, off: nat, items: seq<Item>) {
    && Printable(items)
    && off + |ItemsBytes(items)| <= |b| && b[off..off + |ItemsBytes(items)|] == ItemsBytes(items)
  }

  /** At pos stands a type already found, with its length byte inside the buffer. */
  predicate Repeats(b: seq<byte>, pos: nat, items: seq<Item>) {
    pos + 1 < |b| && b[pos] != 0 && HasType(items, b[pos])
  }

  /** At pos the buffer ends before a zero or a repeated type, or inside an item of a new type. */
  predicate RunsOut(b: seq<byte>, pos: nat, items: seq<Item>) {
    || pos >= |b|
    || (b[pos] != 0 && (pos + 1 >= |b| || (!HasType(items, b[pos]) && pos + 2 + b[pos + 1] > |b|)))
  }

  predicate Stops(b: seq<byte>, pos: nat, items: seq<Item>) {
    Repeats(b, pos, items) || RunsOut(b, pos, items) || b[pos] == 0
  }

  /** What the parser has found so far in an entry. */
  ghost predicate Found(items: seq<Item>) {
    NonZeroTypes(items) && DistinctTypes(items) && |items| <= 255
  }

  lemma FoundMore(items: seq<Item>, typ: byte)
    requires Found(items) && typ != 0 && |items| == 255
    ensures HasType(items, typ)
  {
    AllTypesUsed(items, typ);
  }

  lemma AtStop(b: seq<byte>, pos: nat, items: seq<Item>)
    requires Found(items) && Stops(b, pos, items)
    ensures ParseItems(b, pos, items) == Rejected <==> Repeats(b, pos, items)
    ensures ParseItems(b, pos, items) == Overrun <==> RunsOut(b, pos, items)
  {
    hide HasType, Found;
    if pos < |b| && b[pos] != 0 && |items| == 255 {
      FoundMore(items, b[pos]);
    }
  }

  lemma OneItem(b: seq<byte>, pos: nat, items: seq<Item>)
    requires Found(items) && !Stops(b, pos, items)
    ensures pos + 1 < |b| && b[pos] != 0 && pos + 2 + b[pos + 1] <= |b|
    ensures var t := Item(b[pos], b[pos + 2..pos + 2 + b[pos + 1]]);
      Found(items + [t]) && ParseItems(b, pos, items) == ParseItems(b, pos + 2 + b[pos + 1], items + [t])
  {
    hide HasType, NonZeroTypes, DistinctTypes;
    var t := Item(b[pos], b[pos + 2..pos + 2 + b[pos + 1]]);
    MoreTypes(items, t);
  }

  lemma NothingStands(b: seq<byte>, off: nat)
    requires off <= |b|
    ensures Stand(b, off, []) && ItemsBytes([]) == []
  {
  }

  lemma StandMore(b: seq<byte>, off: nat, t: Item, rest: seq<Item>)
    requires ValidItem(t) && t.typ != 0 && off + 2 + |t.data| <= |b|
    requires b[off] == t.typ && b[off + 1] == |t.data| && b[off + 2..off + 2 + |t.data|] == t.data
    requires Stand(b, off + 2 + |t.data|, rest)
    ensures Stand(b, off, [t] + rest) && |ItemsBytes([t] + rest)| == 2 + |t.data| + |ItemsBytes(rest)|
  {
    hide ItemsBytes, NonZeroTypes;
    PrintableMore(t, rest);
    ItemsJoin(b, off, t, rest);
  }

  /** The parser takes legal items that stand in the buffer up to a place where it stops. */
  lemma {:induction false} ItemsStop(b: seq<byte>, off: nat, done: seq<Item>) returns (todo: seq<Item>)
    requires Found(done) && off <= |b|
    ensures Stand(b, off, todo) && Found(done + todo)
    ensures var pos := off + |ItemsBytes(todo)|;
      Stops(b, pos, done + todo) && ParseItems(b, off, done) == ParseItems(b, pos, done + todo)
    decreases |b| - off
  {
    hide Stops, Found, Stand, ParseItems, ItemsBytes, Printable;
    if Stops(b, off, done) {
      todo := [];
      NothingStands(b, off);
      assert done + todo == done;
    } else {
      OneItem(b, off, done);
      var t := Item(b[off], b[off + 2..off + 2 + b[off + 1]]);
      var rest := ItemsStop(b, off + 2 + |t.data|, done + [t]);
      todo := [t] + rest;
      StandMore(b, off, t, rest);
      assert done + todo == done + [t] + rest;
    }
  }

  lemma FirstStands(b: seq<byte>, off: nat, todo: seq<Item>)
    requires Stand(b, off, todo) && |todo| > 0
    ensures var t := todo[0];
      && ValidItem(t) && t.typ != 0 && off + 2 + |t.data| <= |b|
      && b[off] == t.typ && b[off + 1] == |t.data| && b[off + 2..off + 2 + |t.data|] == t.data
      && Stand(b, off + 2 + |t.data|, todo[1..])
      && |ItemsBytes(todo)| == 2 + |t.data| + |ItemsBytes(todo[1..])|
  {
    hide ItemsBytes, ItemBytes, NonZeroTypes;
    ItemsFromFront(todo);
    PrintableRest(todo);
    ItemLength(todo[0]);
    ItemAt(b, off, ItemsBytes(todo), todo[0], ItemsBytes(todo[1..]));
  }

  lemma FoundPart(done: seq<Item>, t: Item, rest: seq<Item>)
    requires Found(done) && t.typ != 0 && DistinctTypes(done + [t] + rest)
    ensures !HasType(done, t.typ) && Found(done + [t]) && |done| < 255
  {
    hide HasType, NonZeroTypes, DistinctTypes;
    DistinctPrefix(done + [t], rest);
    DistinctLast(done, t);
    MoreTypes(done, t);
  }

  /** Legal items that stand in the buffer are taken. */
  lemma {:induction false} ItemsSkip(b: seq<byte>, off: nat, done: seq<Item>, todo: seq<Item>)
    requires Found(done) && Stand(b, off, todo) && DistinctTypes(done + todo)
    ensures Found(done + todo)
    ensures ParseItems(b, off, done) == ParseItems(b, off + |ItemsBytes(todo)|, done + todo)
    decreases |todo|
  {
    hide Found, Stand, ParseItems, ItemsBytes, HasType, DistinctTypes, Printable;
    if todo == [] {
      NoItemBytes();
      assert done + todo == done;
    } else {
      var t, rest := todo[0], todo[1..];
      FirstStands(b, off, todo);
      assert done + todo == done + [t] + rest;
      FoundPart(done, t, rest);
      ItemsStep(b, off, done, t);
      ItemsSkip(b, off + 2 + |t.data|, done + [t], rest);
    }
  }

  // ---------- one entry ----------

  /** After the identifier at off: legal items, then one whose type they have already. */
  ghost predicate RefusedAfter(b: seq<byte>, off: nat, items: seq<Item>) {
    Stand(b, off + 4, items) && DistinctTypes(items) && Repeats(b, off + 4 + |ItemsBytes(items)|, items)
  }

  /** After the identifier at off: legal items, then not enough bytes. */
  ghost predicate RunsOutAfter(b: seq<byte>, off: nat, items: seq<Item>) {
    Stand(b, off + 4, items) && DistinctTypes(items) && RunsOut(b, off + 4 + |ItemsBytes(items)|, items)
  }

  ghost predicate EntryRefused(b: seq<byte>, off: nat) {
    exists items :: RefusedAfter(b, off, items)
  }

  ghost predicate EntryRunsOut(b: seq<byte>, off: nat) {
    off + 4 > |b| || exists items :: RunsOutAfter(b, off, items)
  }

  lemma NothingFound()
    ensures Found([])
  {
  }

  lemma AfterItems(b: seq<byte>, off: nat, items: seq<Item>)
    requires Stand(b, off + 4, items) && DistinctTypes(items)
    requires Stops(b, off + 4 + |ItemsBytes(items)|, items)
    ensures ParseItems(b, off + 4, []) == Rejected <==> RefusedAfter(b, off, items)
    ensures ParseItems(b, off + 4, []) == Overrun <==> RunsOutAfter(b, off, items)
  {
    hide Found, ParseItems, ItemsBytes, DistinctTypes, Repeats, RunsOut, Stops;
    NothingFound();
    assert [] + items == items;
    ItemsSkip(b, off + 4, [], items);
    AtStop(b, off + 4 + |ItemsBytes(items)|, items);
  }

  lemma EntryOutcome(b: seq<byte>, off: nat)
    ensures ParseEntry(b, off) == Rejected <==> EntryRefused(b, off)
    ensures ParseEntry(b, off) == Overrun <==> EntryRunsOut(b, off)
  {
    hide Found, ParseItems, ItemsBytes, DistinctTypes, Repeats, RunsOut;
    if off + 4 <= |b| {
      NothingFound();
      var found := ItemsStop(b, off + 4, []);
      assert [] + found == found;
      FoundIsDistinct(found);
      AfterItems(b, off, found);
      if items :| RefusedAfter(b, off, items) {
        AfterItems(b, off, items);
      }
      if items :| RunsOutAfter(b, off, items) {
        AfterItems(b, off, items);
      }
    }
  }

  lemma FoundIsDistinct(items: seq<Item>)
    requires Found(items)
    ensures DistinctTypes(items)
  {
  }

  // ---------- all entries ----------

  /** Fewer than n legal entries match the buffer from off on. */
  ghost predicate Reached(b: seq<byte>, off: nat, n: nat, es: seq<Entry>) {
    |es| < n && Legal(es) && EntriesMatch(b, off, es)
  }

  lemma {:induction false} EntriesSkip(b: seq<byte>, off: nat, n: nat, done: seq<Entry>, todo: seq<Entry>)
    requires |todo| <= n && Legal(todo) && EntriesMatch(b, off, todo) && off % 4 == 0
    ensures ParseEntries(b, off, n, done) ==
      ParseEntries(b, off + |EntriesBytes(todo)|, n - |todo|, done + todo)
    decreases |todo|
  {
    hide EntryBytes, EntriesBytes, EntrySize, ParseEntry, ParseEntries, DistinctTypes, NonZeroTypes, EntriesMatch,
      EntryMatches, Legal;
    if todo == [] {
      NoEntries(b, off, done);
      assert done + todo == done;
    } else {
      var e, rest := todo[0], todo[1..];
      SplitFirst(b, off, todo);
      LegalRest(todo);
      LegalIsValid(todo);
      EntriesFromFront(todo);
      EntryRoundTrip(b, off, e);
      OneEntryMore(b, off, n, done);
      EntriesSkip(b, off + EntrySize(e), n - 1, done + [e], rest);
      assert done + todo == done + [e] + rest;
    }
  }

  /** The parser takes legal entries that match the buffer until there are n or one is refused or runs out. */
  lemma {:induction false} EntriesStop(b: seq<byte>, off: nat, n: nat) returns (es: seq<Entry>)
    requires off % 4 == 0
    ensures |es| <= n && Legal(es) && EntriesMatch(b, off, es)
    ensures |es| == n || !ParseEntry(b, off + |EntriesBytes(es)|).Parsed?
    decreases n
  {
    hide EntryBytes, EntriesBytes, EntrySize, ParseEntry, DistinctTypes, NonZeroTypes, EntryMatches, Legal;
    NothingIllegal();
    NoEntries(b, off, []);
    if n == 0 || !ParseEntry(b, off).Parsed? {
      es := [];
    } else {
      EntrySound(b, off);
      var e := ParseEntry(b, off).value;
      EntryIsAligned(b, off, e);
      var rest := EntriesStop(b, off + EntrySize(e), n - 1);
      es := [e] + rest;
      LegalMore(e, rest);
      MatchMore(b, off, e, rest);
      LegalIsValid(es);
      EntriesFromFront(es);
      assert es[1..] == rest;
    }
  }

  /** After fewer than n legal entries, the next one decides unless it is parsed. */
  lemma NextDecides(b: seq<byte>, off: nat, n: nat, es: seq<Entry>)
    requires Reached(b, off, n, es) && off % 4 == 0
    ensures var next := off + |EntriesBytes(es)|;
      && (ParseEntry(b, next) == Rejected <==> EntryRefused(b, next))
      && (ParseEntry(b, next) == Overrun <==> EntryRunsOut(b, next))
      && (ParseEntry(b, next) == Rejected ==> ParseEntries(b, off, n, []) == Rejected)
      && (ParseEntry(b, next) == Overrun ==> ParseEntries(b, off, n, []) == Overrun)
  {
    hide EntriesBytes, ParseEntry, ParseEntries, EntriesMatch, Legal, EntryRefused, EntryRunsOut;
    LegalIsValid(es);
    EntriesSkip(b, off, n, [], es);
    OneEntryMore(b, off + |EntriesBytes(es)|, n - |es|, [] + es);
    EntryOutcome(b, off + |EntriesBytes(es)|);
  }

  ghost predicate RefusedEntry(b: seq<byte>, off: nat, n: nat, es: seq<Entry>) {
    Reached(b, off, n, es) && EntryRefused(b, off + |EntriesBytes(es)|)
  }

  ghost predicate CutEntry(b: seq<byte>, off: nat, n: nat, es: seq<Entry>) {
    Reached(b, off, n, es) && EntryRunsOut(b, off + |EntriesBytes(es)|)
  }

  /** For every buffer: n entries are refused exactly if, after some legal ones that match, legal items of the
      next are followed by one whose type they have already; and the end of the buffer is passed exactly if,
      after some legal ones that match, the identifier of the next is cut short or legal items of it are followed
      by neither a zero, nor a repeated type, nor a complete item. */
  lemma RefusedOrOverrunExactly(b: seq<byte>, off: nat, n: nat)
    requires off % 4 == 0
    ensures ParseEntries(b, off, n, []) == Rejected <==> exists es :: RefusedEntry(b, off, n, es)
    ensures ParseEntries(b, off, n, []) == Overrun <==> exists es :: CutEntry(b, off, n, es)
  {
    hide EntriesBytes, ParseEntry, ParseEntries, EntriesMatch, Legal, EntryRefused, EntryRunsOut;
    if es :| RefusedEntry(b, off, n, es) {
      NextDecides(b, off, n, es);
    }
    if es :| CutEntry(b, off, n, es) {
      NextDecides(b, off, n, es);
    }
    var found := EntriesStop(b, off, n);
    LegalIsValid(found);
    if |found| == n {
      ParsedExactly(b, off, n, found, off + |EntriesBytes(found)|);
    } else {
      NextDecides(b, off, n, found);
      assert RefusedEntry(b, off, n, found) || CutEntry(b, off, n, found);
    }
  }

  // ---------- bytes after the buffer ----------

  lemma {:induction false} MoreItemBytes(b: seq<byte>, more: seq<byte>, off: nat, items: seq<Item>)
    requires ParseItems(b, off, items) != Overrun
    ensures ParseItems(b + more, off, items) == ParseItems(b, off, items)
    decreases |b| - off
  {
    hide HasType;
    if b[off] != 0 && !HasType(items, b[off]) && |items| != 255 {
      var next := off + 2 + b[off + 1];
      assert (b + more)[off + 2..next] == b[off + 2..next];
      MoreItemBytes(b, more, next, items + [Item(b[off], b[off + 2..next])]);
    }
  }

  lemma MoreEntryBytes(b: seq<byte>, more: seq<byte>, off: nat)
    requires ParseEntry(b, off) != Overrun
    ensures ParseEntry(b + more, off) == ParseEntry(b, off)
  {
    hide ParseItems;
    MoreItemBytes(b, more, off + 4, []);
  }

  /** Unless the parser passes the end of the buffer, the bytes after it make no difference. */
  lemma {:induction false} MoreBytes(b: seq<byte>, more: seq<byte>, off: nat, n: nat, es: seq<Entry>)
    requires ParseEntries(b, off, n, es) != Overrun
    ensures ParseEntries(b + more, off, n, es) == ParseEntries(b, off, n, es)
    decreases n
  {
    hide ParseEntry;
    if n > 0 {
      MoreEntryBytes(b, more, off);
      if ParseEntry(b, off).Parsed? {
        MoreBytes(b, more, ParseEntry(b, off).offset, n - 1, es + [ParseEntry(b, off).value]);
      }
    }
  }

  function Later(m: nat, n: nat): nat {
    if m > n then m else n
  }

  lemma {:induction false} ItemsBeforeZeros(b: seq<byte>, k: nat, off: nat, items: seq<Item>)
    requires k >= 256 && off < |b| + k
    ensures var r := ParseItems(b + Zeros(k), off, items);
      r != Overrun && (r.Parsed? ==> r.offset % 4 == 0 && r.offset <= Later(off, |b| + 255) + 4)
    decreases |b| + k - off
  {
    hide HasType;
    var c := b + Zeros(k);
    if c[off] != 0 && !HasType(items, c[off]) && |items| != 255 {
      assert off < |b|;
      var next := off + 2 + c[off + 1];
      assert next <= |b| + 255;
      ItemsBeforeZeros(b, k, next, items + [Item(c[off], c[off + 2..next])]);
    }
  }

  lemma EntryBeforeZeros(b: seq<byte>, k: nat, off: nat)
    requires k >= 256 && off + 5 <= |b| + k && off % 4 == 0
    ensures var r := ParseEntry(b + Zeros(k), off);
      r != Overrun && (r.Parsed? ==> r.offset % 4 == 0 && r.offset <= Later(off + 8, |b| + 259))
  {
    hide ParseItems;
    ItemsBeforeZeros(b, k, off + 4, []);
  }

  lemma {:induction false} EntriesBeforeZeros(b: seq<byte>, k: nat, off: nat, n: nat, es: seq<Entry>)
    requires off % 4 == 0 && (n > 0 ==> k >= 248 + 8 * n && off + 8 * n <= |b| + k + 3)
    ensures ParseEntries(b + Zeros(k), off, n, es) != Overrun
    decreases n
  {
    hide ParseEntry;
    if n > 0 {
      EntryBeforeZeros(b, k, off);
      var r := ParseEntry(b + Zeros(k), off);
      if r.Parsed? {
        EntriesBeforeZeros(b, k, r.offset, n - 1, es + [r.value]);
      }
    }
  }

  /** An entry whose last item claims 255 bytes that are missing, after the header of an n-entry packet. */
  function WorstPacket(n: nat): seq<byte>
    requires n < 32
  {
    [0x80 + n, RTCP_SDES, 0, 0, 0, 0, 0, 1, 1, 1, 7, 2, 255]
  }

  /** Entries of nothing but zeros take eight bytes each, of which five are looked at. */
  lemma {:induction false} ZeroEntries(b: seq<byte>, off: nat, n: nat, es: seq<Entry>)
    requires n > 0 && off % 4 == 0 && off + 8 * n == |b| + 4
    requires forall i :: off <= i < |b| ==> b[i] == 0
    ensures ParseEntries(b, off, n, es) == Overrun
    decreases n
  {
    if n > 1 {
      assert b[off + 4] == 0;
      assert ParseItems(b, off + 4, []) == Parsed([], off + 8);
      ZeroEntries(b, off + 8, n - 1, es + [Entry(ReadU32(b, off), [])]);
    }
  }

  lemma WorstItems(n: nat)
    requires 1 <= n < 32
    ensures ParseItems(WorstPacket(n) + Zeros(247 + 8 * n), 8, []) ==
      if n == 1 then Overrun else Parsed([Item(1, [7]), Item(2, Zeros(255))], 272)
  {
    var b := WorstPacket(n) + Zeros(247 + 8 * n);
    var first, second := Item(1, [7]), Item(2, Zeros(255));
    assert b[10..11] == [7];
    assert b[13..268] == Zeros(255);
    ItemsStep(b, 8, [], first);
    assert [] + [first] == [first] && !HasType([first], 2);
    ItemsStep(b, 11, [first], second);
    assert [first] + [second] == [first, second];
    if n > 1 {
      assert b[268] == 0;
    }
  }

  /** One zero fewer is not enough for it. */
  lemma WorstOverruns(n: nat)
    requires 1 <= n < 32
    ensures ParseEntries(WorstPacket(n) + Zeros(247 + 8 * n), 4, n, []) == Overrun
  {
    var b := WorstPacket(n) + Zeros(247 + 8 * n);
    hide ParseItems, ParseEntries;
    WorstItems(n);
    OneEntryMore(b, 4, n, []);
    if n > 1 {
      ZeroEntries(b, 272, n - 1, [] + [ParseEntry(b, 4).value]);
    }
  }

  /** Whatever bytes come with an SDES header that promises n entries, k zeros after them stop the parser. */
  ghost predicate ZerosSuffice(n: nat, k: nat) {
    forall b: seq<byte> | |b| >= 4 && ParseHeader(b).(p := 0, length := 0) == Header(2, 0, n, RTCP_SDES, 0) ::
      ParseEntries(b + Zeros(k), 4, n, []) != Overrun
  }

  /** That takes 248 zeros and eight more for each entry, and no fewer. */
  lemma ZerosNeeded(n: nat, k: nat)
    requires 1 <= n < 32
    ensures ZerosSuffice(n, k) <==> k >= 248 + 8 * n
  {
    hide ParseEntries;
    if k >= 248 + 8 * n {
      forall b: seq<byte> | |b| >= 4 ensures ParseEntries(b + Zeros(k), 4, n, []) != Overrun {
        EntriesBeforeZeros(b, k, 4, n, []);
      }
    } else {
      var b, more := WorstPacket(n), Zeros(247 + 8 * n - k);
      WorstOverruns(n);
      assert b + Zeros(247 + 8 * n) == b + Zeros(k) + more;
      if ParseEntries(b + Zeros(k), 4, n, []) != Overrun {
        MoreBytes(b + Zeros(k), more, 4, n, []);
      }
    }
  }

  /** For all packets together, 496 zeros are enough, and no fewer. */
  lemma ZerosForAll(k: nat)
    ensures (forall n: nat | 1 <= n < 32 :: ZerosSuffice(n, k)) <==> k >= 496
  {
    hide ZerosSuffice;
    forall n: nat | 1 <= n < 32 ensures ZerosSuffice(n, k) <==> k >= 248 + 8 * n {
      ZerosNeeded(n, k);
    }
    assert ZerosSuffice(31, k) <==> k >= 496;
  }
}
