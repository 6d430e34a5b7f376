/** Collecting packets of one group in any order until the source can be recovered (rtp/fec/fec_group.c). */
module FecGroup {
  import opened Pigeonhole
  import opened Gf256
  import opened GaloisTables
  import opened LinearAlgebra
  import opened ErasureCode
  import opened FlatMatrix
  import opened FecCodec

  /** The parts of a received packet that the group looks at. */
  datatype FecPkt = FecPkt(packetSeq: nat, len: nat, groupTstamp: nat, payload: seq<Gf>)

  /** A payload filled up with zeros to the block length. */
  ghost function Padded(payload: seq<Gf>, len: nat, fecLen: nat): (v: Vec)
    requires len <= |payload| && len <= fecLen
    ensures |v| == fecLen
  {
    payload[..len] + Zeros(fecLen - len)
  }

  /** The block at position at begins with the payload and ends with zeros. */
  ghost predicate PayloadAt(s: seq<Gf>, at: nat, payload: seq<Gf>, len: nat, fecLen: nat) {
    && len <= |payload| && len <= fecLen && at + fecLen <= |s|
    && (forall p :: 0 <= p < len ==> s[at..][p] == payload[p])
    && (forall p :: len <= p < fecLen ==> s[at..][p] == ZERO)
  }

  lemma PaddedFills(s: seq<Gf>, at: nat, payload: seq<Gf>, len: nat, fecLen: nat)
    requires len <= |payload| && len <= fecLen && at + fecLen <= |s|
    ensures s[at..at + fecLen] == Padded(payload, len, fecLen) <==> PayloadAt(s, at, payload, len, fecLen)
  {
    var block := s[at..at + fecLen];
    assert forall p :: 0 <= p < fecLen ==> s[at..][p] == block[p];
  }

  /** The packets below i with a recorded length. */
  ghost function ReceivedBelow(lengths: seq<nat>, i: nat): (r: set<nat>)
    requires i <= |lengths|
    ensures forall x {:trigger x in r} :: x in r <==> 0 <= x < i && lengths[x] > 0
  {
    if i == 0 then {}
    else if lengths[i - 1] > 0 then ReceivedBelow(lengths, i - 1) + {i - 1}
    else ReceivedBelow(lengths, i - 1)
  }

  lemma NotReceived(lengths: seq<nat>, i: nat, n: nat)
    requires i < n == |lengths|
    ensures i in ReceivedBelow(lengths, n) <==> lengths[i] > 0
  {
  }

  /** Recording a packet not seen before. */
  lemma ReceivedMore(lengths: seq<nat>, i: nat, l: nat, n: nat)
    requires i < n == |lengths| && n < 256 && lengths[i] == 0
    ensures ReceivedBelow(lengths[i := l], n) == ReceivedBelow(lengths, n) + (if l > 0 then {i} else {})
    ensures l > 0 ==> |ReceivedBelow(lengths[i := l], n)| == |ReceivedBelow(lengths, n)| + 1 <= n
  {
    if l > 0 {
      assert ReceivedBelow(lengths[i := l], n) == ReceivedBelow(lengths, n) + {i};
      ReceivedAtMost(lengths[i := l], n);
    }
  }

  /** The same packets, in increasing order. */
  ghost function ReceivedList(lengths: seq<nat>, i: nat): (r: seq<nat>)
    requires i <= |lengths|
    ensures |r| == |ReceivedBelow(lengths, i)| && Distinct(r)
    ensures forall j :: 0 <= j < |r| ==> r[j] in ReceivedBelow(lengths, i)
  {
    if i == 0 then []
    else if lengths[i - 1] > 0 then ReceivedList(lengths, i - 1) + [i - 1]
    else ReceivedList(lengths, i - 1)
  }

  lemma ReceivedListNone(lengths: seq<nat>)
    ensures ReceivedList(lengths, 0) == []
  {
  }

  lemma ReceivedListStep(lengths: seq<nat>, i: nat, n: nat)
    requires i < n == |lengths|
    ensures ReceivedList(lengths, i + 1) ==
      if lengths[i] > 0 then ReceivedList(lengths, i) + [i] else ReceivedList(lengths, i)
  {
  }

  lemma ReceivedListIn(lengths: seq<nat>, i: nat, n: nat)
    requires i <= n == |lengths|
    ensures |ReceivedList(lengths, i)| == |ReceivedBelow(lengths, i)| && Distinct(ReceivedList(lengths, i))
    ensures forall j :: 0 <= j < |ReceivedList(lengths, i)| ==> ReceivedList(lengths, i)[j] in ReceivedBelow(lengths, n)
  {
  }

  lemma ReceivedAtMost(lengths: seq<nat>, i: nat)
    requires i <= |lengths|
    ensures |ReceivedBelow(lengths, i)| <= i
  {
    SubsetCount(ReceivedBelow(lengths, i), Below(i));
  }

  /** Decoding turns "every received slot holds its packet" into "the first k slots hold the source". */
  lemma DecodedHolds(k: nat, n: nat, len: nat, before: seq<Gf>, after: seq<Gf>, lengths: seq<nat>,
                     idxs: seq<nat>, source: Matrix)
    requires k <= n == |lengths| && n <= 256 && IsMatrix(source, k, len)
    requires |idxs| == k && Distinct(idxs) && forall j :: 0 <= j < k ==> idxs[j] in ReceivedBelow(lengths, n)
    requires Recovered(k, n, before, after, idxs, len)
    requires forall i :: i in ReceivedBelow(lengths, n) ==> Slots(before, n, len)[i] == Codeword(k, source, len, i)
    ensures Start(n, len) <= |after| && Start(k, len) <= |after| && Slots(after, k, len) == source
    ensures forall i :: i in ReceivedBelow(lengths, n) ==> Slots(after, n, len)[i] == Codeword(k, source, len, i)
  {
    hide Start, Block, GeneratorRow, Codeword;
    forall v | v in idxs ensures Slots(before, n, len)[v] == Codeword(k, source, len, v) {
      var j :| 0 <= j < k && idxs[j] == v;
    }
    RecoveredIsSource(k, n, before, after, idxs, source, len);
    UpperBlock(after, k, n, len);
    forall i | i in ReceivedBelow(lengths, n) ensures Slots(after, n, len)[i] == Codeword(k, source, len, i) {
      if i < k {
        SystematicCodeword(k, source, len, i);
        assert Slots(after, n, len)[i] == Slots(after, k, len)[i];
      } else {
        SlotUntouched(k, n, before, after, len, i);
      }
    }
  }

  /** A slot from k on keeps its contents when the places from there on do. */
  lemma SlotUntouched(k: nat, n: nat, before: seq<Gf>, after: seq<Gf>, len: nat, i: nat)
    requires k <= i < n && Start(n, len) <= |before| == |after|
    requires forall p :: Start(k, len) <= p < |after| ==> after[p] == before[p]
    ensures Slots(after, n, len)[i] == Slots(before, n, len)[i]
  {
    hide Start, Block;
    BlockRow(after, 0, n, len, i);
    BlockRow(before, 0, n, len, i);
    if k < i {
      RowFits(k, i, len);
    }
  }

  /** Storing a packet of the code in its slot keeps every claim about the slots. */
  lemma InsertedHolds(k: nat, n: nat, len: nat, before: seq<Gf>, after: seq<Gf>, lengths: seq<nat>, i: nat, l: nat,
                      decoded: bool, source: Matrix)
    requires i < n == |lengths| && n <= 256 && IsMatrix(source, k, len)
    requires Start(n, len) <= |before| == |after|
    requires Slots(after, n, len) == Slots(before, n, len)[i := Codeword(k, source, len, i)]
    requires forall r :: r in ReceivedBelow(lengths, n) ==> Slots(before, n, len)[r] == Codeword(k, source, len, r)
    requires decoded ==> k <= n && Start(k, len) <= |before| && Slots(before, k, len) == source
    ensures forall r :: r in ReceivedBelow(lengths[i := l], n) ==>
      Slots(after, n, len)[r] == Codeword(k, source, len, r)
    ensures decoded ==> Slots(after, k, len) == source
  {
    hide Start, Block, Codeword;
    if decoded {
      UpperBlock(before, k, n, len);
      UpperBlock(after, k, n, len);
      if i < k {
        SystematicCodeword(k, source, len, i);
      }
      assert Slots(after, n, len)[..k] == Slots(before, n, len)[..k];
    }
  }

  class FecGroup {
    const fecK: nat
    const fecN: nat
    const fecLen: nat
    const seqno: nat
    const tstamp: nat
    const buf: array<Gf>
    const lengths: array<nat>
    var rcvdPkts: nat
    var decoded: bool

    /** Shape of the structure; the parameters are single bytes. */
    ghost predicate Valid()
      reads this
    {
      fecK < 256 && fecN < 256 && rcvdPkts < 256 && buf.Length == Start(fecN, fecLen) && lengths.Length == fecN
    }

    ghost function Received(): set<nat>
      reads this, lengths
      requires Valid()
    {
      ReceivedBelow(lengths[..], fecN)
    }

    /** The counter tells the truth, and a decoded group has had enough packets. */
    ghost predicate Counted()
      reads this, lengths
      requires Valid()
    {
      rcvdPkts == |Received()| && (decoded ==> fecK <= |Received()|)
    }

    /** Every received slot holds its packet of the code, and after decoding the first k slots hold the source. */
    ghost predicate Holds(source: Matrix)
      reads this, buf, lengths
      requires Valid()
    {
      && IsMatrix(source, fecK, fecLen)
      && (forall i :: i in Received() ==> Slots(buf[..], fecN, fecLen)[i] == Codeword(fecK, source, fecLen, i))
      && (decoded ==> fecK <= fecN && Start(fecK, fecLen) <= buf.Length && Slots(buf[..], fecK, fecLen) == source)
    }

    /** fec_group_init. */
    constructor (fecK: nat, fecN: nat, seqno: nat, tstamp: nat, fecLen: nat)
      requires fecK < 256 && fecN < 256
      ensures Valid() && Counted() && Received() == {} && !decoded
      ensures this.fecK == fecK && this.fecN == fecN && this.fecLen == fecLen && this.tstamp == tstamp
      ensures fresh(buf) && fresh(lengths)
      ensures forall source: Matrix :: IsMatrix(source, fecK, fecLen) ==> Holds(source)
    {
      StartIs(fecN, fecLen);
      this.fecK := fecK;
      this.fecN := fecN;
      this.seqno := seqno;
      this.tstamp := tstamp;
      this.fecLen := fecLen;
      this.rcvdPkts := 0;
      this.buf := new Gf[fecN * fecLen];
      this.lengths := new nat[fecN](_ => 0);
      this.decoded := false;
      new;
      assert Received() == {};
    }

    /** fec_group_insert_pkt: stores a packet the first time it arrives. */
    method InsertPkt(pkt: FecPkt)
      requires Valid()
      requires pkt.packetSeq < fecN && pkt.len <= fecLen && pkt.groupTstamp == tstamp && pkt.len <= |pkt.payload|
      modifies this`rcvdPkts, buf, lengths
      ensures Valid()
      ensures old(lengths[pkt.packetSeq]) > 0 ==>
        rcvdPkts == old(rcvdPkts) && lengths[..] == old(lengths[..]) && buf[..] == old(buf[..])
      ensures old(lengths[pkt.packetSeq]) == 0 ==>
        rcvdPkts == (old(rcvdPkts) + 1) % 256 && lengths[..] == old(lengths[..])[pkt.packetSeq := pkt.len] &&
        Slots(buf[..], fecN, fecLen) ==
          old(Slots(buf[..], fecN, fecLen))[pkt.packetSeq := Padded(pkt.payload, pkt.len, fecLen)]
      ensures old(lengths[pkt.packetSeq]) == 0 ==>
        PayloadAt(buf[..], pkt.packetSeq * fecLen, pkt.payload, pkt.len, fecLen) &&
        SameOutside(old(buf[..]), buf[..], pkt.packetSeq * fecLen, fecLen)
      ensures Received() == old(Received()) + (if pkt.len > 0 then {pkt.packetSeq} else {})
      ensures old(Counted()) ==> (Counted() <==> pkt.len > 0 || old(lengths[pkt.packetSeq]) > 0)
    {
      hide Start, Block, Slots, Codeword, Padded, ReceivedBelow, PayloadAt, SameOutside;
      NotReceived(lengths[..], pkt.packetSeq, fecN);
      if lengths[pkt.packetSeq] == 0 {
        ReceivedMore(lengths[..], pkt.packetSeq, pkt.len, fecN);
        StorePkt(pkt);
      } else {
        assert Received() + {pkt.packetSeq} == Received();
      }
    }

    /** The branch for a packet not seen before. */
    method StorePkt(pkt: FecPkt)
      requires Valid() && pkt.packetSeq < fecN && pkt.len <= fecLen && pkt.len <= |pkt.payload|
      modifies this`rcvdPkts, buf, lengths
      ensures Valid()
      ensures rcvdPkts == (old(rcvdPkts) + 1) % 256
      ensures lengths[..] == old(lengths[..])[pkt.packetSeq := pkt.len]
      ensures Slots(buf[..], fecN, fecLen) ==
        old(Slots(buf[..], fecN, fecLen))[pkt.packetSeq := Padded(pkt.payload, pkt.len, fecLen)]
      ensures PayloadAt(buf[..], pkt.packetSeq * fecLen, pkt.payload, pkt.len, fecLen)
      ensures SameOutside(old(buf[..]), buf[..], pkt.packetSeq * fecLen, fecLen)
    {
      hide Start, Block, Padded, PayloadAt;
      ghost var before := buf[..];
      StartIs(pkt.packetSeq, fecLen);
      BlockRow(before, 0, fecN, fecLen, pkt.packetSeq);
      var ptr := pkt.packetSeq * fecLen;
      StorePadded(buf, ptr, pkt.payload, pkt.len, fecLen);
      SetRow(before, buf[..], fecN, fecLen, pkt.packetSeq);
      PaddedFills(buf[..], ptr, pkt.payload, pkt.len, fecLen);
      lengths[pkt.packetSeq] := pkt.len;
      rcvdPkts := (rcvdPkts + 1) % 256;
    }

    /** Once k packets are there: the indices of the first k of them. */
    method FirstReceived() returns (idxs: array<nat>)
      requires Valid() && 1 <= fecK <= |Received()|
      ensures fresh(idxs) && idxs.Length == fecK && Distinct(idxs[..])
      ensures forall j :: 0 <= j < fecK ==> idxs[j] in Received()
    {
      hide ReceivedList, ReceivedBelow, Distinct, Start;
      idxs := new nat[fecK];
      ghost var s := lengths[..];
      ReceivedListNone(s);
      var j := 0;
      for i := 0 to fecN
        invariant j < fecK && idxs[..j] == ReceivedList(s, i)
      {
        assert s[i] == lengths[i];
        ReceivedListStep(s, i, fecN);
        if lengths[i] > 0 {
          idxs[j] := i;
          j := j + 1;
          assert idxs[..j] == idxs[..j - 1] + [i];
          if j == fecK {
            ReceivedListIn(s, i + 1, fecN);
            assert idxs[..] == idxs[..j];
            return;
          }
        }
      }
      ReceivedListIn(s, fecN, fecN);
      assert false;
    }

    /** fec_group_decode: succeeds as soon as k different packets are there. */
    method Decode(gf: Tables, ghost source: Matrix) returns (ok: bool)
      requires gf.Ready() && Valid()
      requires decoded || rcvdPkts < fecK || 1 <= fecK <= |Received()|
      modifies this`decoded, buf
      ensures Valid() && (old(Counted()) ==> Counted() && (ok <==> fecK <= |Received()|))
      ensures ok == decoded && (ok <==> old(decoded) || fecK <= rcvdPkts)
      ensures old(Holds(source)) ==> Holds(source)
      ensures old(decoded) || !ok ==> buf[..] == old(buf[..])
    {
      hide Start, Block, Slots, Codeword, Recovered, Distinct, ReceivedBelow, Tables.Ready;
      if decoded {
        return true;
      }
      if rcvdPkts >= fecK {
        var idxs := FirstReceived();
        ReceivedAtMost(lengths[..], fecN);
        var fec := new Fec(gf, fecK, fecN);
        ghost var before, received := buf[..], idxs[..];
        ok := fec.Decode(gf, buf, idxs, fecLen);
        if !ok {
          assert false;
          return;
        }
        decoded := true;
        if old(Holds(source)) {
          assert !old(decoded);
          DecodedHolds(fecK, fecN, fecLen, before, buf[..], lengths[..], received, source);
        }
        return true;
      } else {
        return false;
      }
    }
  }

  /** memcpy of the payload followed by memset of the rest of the block. */
  method StorePadded(buf: array<Gf>, ptr: nat, payload: seq<Gf>, len: nat, fecLen: nat)
    requires ptr + fecLen <= buf.Length && len <= |payload| && len <= fecLen
    modifies buf
    ensures buf[ptr..ptr + fecLen] == Padded(payload, len, fecLen)
    ensures SameOutside(old(buf[..]), buf[..], ptr, fecLen)
  {
    for i := 0 to len
      invariant buf[ptr..ptr + i] == payload[..i]
      invariant SameOutside(old(buf[..]), buf[..], ptr, i)
    {
      buf[ptr + i] := payload[i];
    }
    if len < fecLen {
      ZeroRange(buf, ptr + len, fecLen - len);
    }
  }

  // ---------- whole runs ----------

  datatype Event = Insert(pkt: FecPkt) | Decode

  /** A packet of the code for this source: non-empty, and equal to its block after zero padding. */
  ghost predicate Genuine(pkt: FecPkt, k: nat, n: nat, len: nat, tstamp: nat, source: Matrix)
    requires IsMatrix(source, k, len)
  {
    && pkt.packetSeq < n && 0 < pkt.len <= len && pkt.len <= |pkt.payload| && pkt.groupTstamp == tstamp
    && PayloadAt(Codeword(k, source, len, pkt.packetSeq), 0, pkt.payload, pkt.len, len)
  }

  /** The answers decoding must give: yes exactly from the k-th different packet on. */
  ghost function Answers(events: seq<Event>, arrived: set<nat>, k: nat): seq<bool> {
    if events == [] then []
    else match events[0]
      case Insert(pkt) => Answers(events[1..], arrived + {pkt.packetSeq}, k)
      case Decode => [k <= |arrived|] + Answers(events[1..], arrived, k)
  }

  ghost function Arrived(events: seq<Event>): set<nat> {
    set i | 0 <= i < |events| && events[i].Insert? :: events[i].pkt.packetSeq
  }

  /** The group has seen exactly these packets of the code and knows the source once decoded. */
  ghost predicate Tracks(group: FecGroup, source: Matrix, arrived: set<nat>)
    reads group, group.buf, group.lengths
  {
    group.Valid() && group.Counted() && group.Holds(source) && group.Received() == arrived
  }

  /** A genuine packet keeps everything known about the slots. */
  method InsertGenuine(group: FecGroup, pkt: FecPkt, ghost source: Matrix)
    requires group.Valid() && group.Counted() && group.Holds(source)
    requires Genuine(pkt, group.fecK, group.fecN, group.fecLen, group.tstamp, source)
    modifies group`rcvdPkts, group.buf, group.lengths
    ensures group.Valid() && group.Counted() && group.Holds(source)
    ensures group.Received() == old(group.Received()) + {pkt.packetSeq}
  {
    hide Start, Block, Slots, Codeword, Padded, ReceivedBelow;
    ghost var before, lengths := group.buf[..], group.lengths[..];
    ghost var block := Codeword(group.fecK, source, group.fecLen, pkt.packetSeq);
    PaddedFills(block, 0, pkt.payload, pkt.len, group.fecLen);
    assert block[0..group.fecLen] == block;
    group.InsertPkt(pkt);
    if lengths[pkt.packetSeq] == 0 {
      InsertedHolds(group.fecK, group.fecN, group.fecLen, before, group.buf[..], lengths, pkt.packetSeq, pkt.len,
                    group.decoded, source);
    }
  }

  /** Handles one event. */
  method Step(gf: Tables, group: FecGroup, event: Event, ghost source: Matrix, ghost arrived: set<nat>)
    returns (ok: bool)
    requires gf.Ready() && 1 <= group.fecK && Tracks(group, source, arrived)
    requires event.Insert? ==> Genuine(event.pkt, group.fecK, group.fecN, group.fecLen, group.tstamp, source)
    modifies group`rcvdPkts, group`decoded, group.buf, group.lengths
    ensures Tracks(group, source, if event.Insert? then arrived + {event.pkt.packetSeq} else arrived)
    ensures event.Decode? ==> (ok <==> group.fecK <= |arrived|)
    ensures group.decoded == (old(group.decoded) || (event.Decode? && ok))
  {
    hide Codeword, Padded, Tables.Ready;
    ok := false;
    match event
    case Insert(pkt) =>
      InsertGenuine(group, pkt, source);
    case Decode =>
      ok := group.Decode(gf, source);
  }

  /** Feeds any sequence of genuine packets and decoding attempts to a fresh group. */
  method Replay(gf: Tables, k: nat, n: nat, tstamp: nat, len: nat, events: seq<Event>, ghost source: Matrix)
    returns (group: FecGroup, answers: seq<bool>)
    requires gf.Ready() && 1 <= k < 256 && n < 256 && IsMatrix(source, k, len)
    requires forall i :: 0 <= i < |events| && events[i].Insert? ==> Genuine(events[i].pkt, k, n, len, tstamp, source)
    ensures answers == Answers(events, {}, k)
    ensures group.fecK == k && group.fecN == n && group.fecLen == len
    ensures Tracks(group, source, Arrived(events))
    ensures group.decoded <==> true in answers
  {
    hide Tracks, Genuine, Tables.Ready;
    group := FreshGroup(k, n, tstamp, len, source);
    answers := [];
    ghost var arrived: set<nat> := {};
    for i := 0 to |events|
      invariant fresh(group) && fresh(group.buf) && fresh(group.lengths)
      invariant group.fecK == k && group.fecN == n && group.fecLen == len && group.tstamp == tstamp
      invariant Tracks(group, source, arrived) && arrived == Arrived(events[..i])
      invariant answers + Answers(events[i..], arrived, k) == Answers(events, {}, k)
      invariant group.decoded <==> true in answers
    {
      var ok := Step(gf, group, events[i], source, arrived);
      ArrivedStep(events, i);
      AnswersStep(events, i, arrived, k);
      if events[i].Decode? {
        answers := answers + [ok];
      } else {
        arrived := arrived + {events[i].pkt.packetSeq};
      }
    }
    assert events[..|events|] == events;
  }

  method FreshGroup(k: nat, n: nat, tstamp: nat, len: nat, ghost source: Matrix) returns (group: FecGroup)
    requires k < 256 && n < 256 && IsMatrix(source, k, len)
    ensures fresh(group) && fresh(group.buf) && fresh(group.lengths) && !group.decoded
    ensures group.fecK == k && group.fecN == n && group.fecLen == len && group.tstamp == tstamp
    ensures Tracks(group, source, {})
  {
    group := new FecGroup(k, n, 0, tstamp, len);
  }

  lemma ArrivedStep(events: seq<Event>, i: nat)
    requires i < |events|
    ensures Arrived(events[..i + 1]) ==
      if events[i].Insert? then Arrived(events[..i]) + {events[i].pkt.packetSeq} else Arrived(events[..i])
  {
    var s, t := events[..i], events[..i + 1];
    assert t == s + [events[i]];
    assert forall j :: 0 <= j < i ==> t[j] == s[j];
    forall x | x in Arrived(t) ensures x in Arrived(s) || (events[i].Insert? && x == events[i].pkt.packetSeq) {
      var j :| 0 <= j < |t| && t[j].Insert? && t[j].pkt.packetSeq == x;
    }
    forall x | x in Arrived(s) ensures x in Arrived(t) {
      var j :| 0 <= j < |s| && s[j].Insert? && s[j].pkt.packetSeq == x;
      assert t[j].Insert? && t[j].pkt.packetSeq == x;
    }
    if events[i].Insert? {
      assert t[i].Insert? && t[i].pkt.packetSeq in Arrived(t);
    }
  }

  lemma AnswersStep(events: seq<Event>, i: nat, arrived: set<nat>, k: nat)
    requires i < |events|
    ensures Answers(events[i..], arrived, k) ==
      if events[i].Insert? then Answers(events[i + 1..], arrived + {events[i].pkt.packetSeq}, k)
      else [k <= |arrived|] + Answers(events[i + 1..], arrived, k)
  {
    assert events[i..][1..] == events[i + 1..];
  }
}
