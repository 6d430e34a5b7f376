/** Per-source sequence number tracking and loss accounting (rtp/rtp_source.c), after sections A.1
    and A.3 of RFC 3550. */
module RtpSource {

  const SEQ_MOD: int := 0x1_0000
  const MAX_DROPOUT: int := 3000
  const MAX_MISORDER: int := 100
  const U32_MOD: int := 0x1_0000_0000

  function ToInt32(x: int): int {
    var u := x % U32_MOD;
    if u < 0x8000_0000 then u else u - U32_MOD
  }

  /** A value stored in a signed bit field of 24 bits. */
  function ToInt24(x: int): int {
    var u := x % 0x100_0000;
    if u < 0x80_0000 then u else u - 0x100_0000
  }

  /** Integer division of C: towards zero. */
  function Quotient(a: int, b: int): int
    requires b != 0
  {
    if a >= 0 then a / b else -((-a) / b)
  }

  /** The fields of a source that the sequence and loss logic uses. */
  datatype State = State(id: int, maxSeq: int, cycles: int, baseSeq: int, badSeq: int, probation: int,
                         received: int, expectedPrior: int, receivedPrior: int, fraction: int, lost: int)

  // ---------- the transitions ----------

  function ResetSeq(s: State, seqno: int): State {
    s.(baseSeq := seqno, maxSeq := seqno, badSeq := SEQ_MOD + 1, cycles := 0,
       received := 0, receivedPrior := 0, expectedPrior := 0)
  }

  function Init(s: State, id: int, seqno: int, minSequential: nat): State {
    var r := ResetSeq(s, seqno).(id := id, maxSeq := (seqno - 1) % SEQ_MOD);
    if minSequential > 0 then r.(probation := minSequential) else r
  }

  /** How far seqno is ahead of the highest number seen, modulo 2^16. */
  function Ahead(s: State, seqno: int): int {
    (seqno - s.maxSeq) % SEQ_MOD
  }

  predicate InOrder(s: State, seqno: int) {
    Ahead(s, seqno) < MAX_DROPOUT
  }

  predicate LargeJump(s: State, seqno: int) {
    MAX_DROPOUT <= Ahead(s, seqno) <= SEQ_MOD - MAX_MISORDER
  }

  /** A packet while the source is on probation. */
  function Probe(s: State, seqno: int, minSequential: nat): (State, bool) {
    if seqno == s.maxSeq + 1 then
      if s.probation - 1 == 0 then
        (ResetSeq(s.(probation := 0), seqno).(received := 1), true)
      else
        (s.(probation := s.probation - 1, maxSeq := seqno), false)
    else
      (s.(probation := minSequential - 1, maxSeq := seqno), false)
  }

  /** A packet from a valid source. */
  function Track(s: State, seqno: int): (State, bool) {
    if InOrder(s, seqno) then
      (s.(cycles := if seqno < s.maxSeq then (s.cycles + SEQ_MOD) % U32_MOD else s.cycles,
          maxSeq := seqno, received := s.received + 1), true)
    else if LargeJump(s, seqno) then
      if seqno == s.badSeq then
        (ResetSeq(s, seqno).(received := 1), true)
      else
        (s.(badSeq := (seqno + 1) % SEQ_MOD), false)
    else
      (s.(received := s.received + 1), true)
  }

  function UpdateSeq(s: State, seqno: int, minSequential: nat): (State, bool) {
    if minSequential > 0 && s.probation > 0 then Probe(s, seqno, minSequential) else Track(s, seqno)
  }

  /** Packets expected so far, in the 32-bit arithmetic of the code. */
  function Expected(s: State): int {
    ToInt32((s.cycles + s.maxSeq) % U32_MOD - s.baseSeq + 1)
  }

  function LostInterval(s: State): int {
    (Expected(s) - s.expectedPrior) - (s.received - s.receivedPrior)
  }

  function UpdateLost(s: State): State {
    var expected := Expected(s);
    var expectedInterval := expected - s.expectedPrior;
    s.(lost := ToInt24(expected - s.received),
       expectedPrior := expected,
       receivedPrior := s.received,
       fraction := if expectedInterval == 0 || LostInterval(s) <= 0 then 0
                   else Quotient(ToInt32(LostInterval(s) * 256), expectedInterval) % 256)
  }

  // ---------- the source as updated in place ----------

  class Source {
    var id: int
    var maxSeq: int
    var cycles: int
    var baseSeq: int
    var badSeq: int
    var probation: int
    var received: int
    var expectedPrior: int
    var receivedPrior: int
    var fraction: int
    var lost: int

    ghost function Value(): State
      reads this
    {
      State(id, maxSeq, cycles, baseSeq, badSeq, probation, received, expectedPrior, receivedPrior, fraction, lost)
    }

    /** rtp_source_create: all fields zero. */
    constructor ()
      ensures Value() == State(0, 0, 0, 0, 0, 0, 0, 0, 0, 0, 0)
    {
      id, maxSeq, cycles, baseSeq, badSeq, probation := 0, 0, 0, 0, 0, 0;
      received, expectedPrior, receivedPrior, fraction, lost := 0, 0, 0, 0, 0;
    }

    method InitSource(id: int, seqno: int, minSequential: nat)
      requires 0 <= seqno < SEQ_MOD
      modifies this
      ensures Value() == Init(old(Value()), id, seqno, minSequential)
    {
      ResetSequence(seqno);
      this.id := id;
      maxSeq := (seqno - 1) % SEQ_MOD;
      if minSequential > 0 {
        probation := minSequential;
      }
    }

    method ResetSequence(seqno: int)
      requires 0 <= seqno < SEQ_MOD
      modifies this
      ensures Value() == ResetSeq(old(Value()), seqno)
    {
      baseSeq := seqno;
      maxSeq := seqno;
      badSeq := SEQ_MOD + 1;
      cycles := 0;
      received := 0;
      receivedPrior := 0;
      expectedPrior := 0;
    }

    /** rtp_source_update_seq: false means the packet is to be discarded. */
    method UpdateSequence(seqno: int, minSequential: nat) returns (ok: bool)
      requires 0 <= seqno < SEQ_MOD
      modifies this
      ensures (Value(), ok) == UpdateSeq(old(Value()), seqno, minSequential)
    {
      if minSequential > 0 && probation > 0 {
        if seqno == maxSeq + 1 {
          probation := probation - 1;
          maxSeq := seqno;
          if probation == 0 {
            ResetSequence(seqno);
            received := received + 1;
            return true;
          }
        } else {
          probation := minSequential - 1;
          maxSeq := seqno;
        }
        return false;
      }
      var udelta := (seqno - maxSeq) % SEQ_MOD;
      if udelta < MAX_DROPOUT {
        if seqno < maxSeq {
          cycles := (cycles + SEQ_MOD) % U32_MOD;
        }
        maxSeq := seqno;
      } else if udelta <= SEQ_MOD - MAX_MISORDER {
        if seqno == badSeq {
          ResetSequence(seqno);
        } else {
          badSeq := (seqno + 1) % SEQ_MOD;
          return false;
        }
      }
      received := received + 1;
      return true;
    }

    method UpdateLosses()
      modifies this
      ensures Value() == UpdateLost(old(Value()))
    {
      var extMax := (cycles + maxSeq) % U32_MOD;
      var expected := ToInt32(extMax - baseSeq + 1);
      var expectedInterval := expected - expectedPrior;
      var receivedInterval := received - receivedPrior;
      var lostInterval := expectedInterval - receivedInterval;
      lost := ToInt24(expected - received);
      expectedPrior := expected;
      receivedPrior := received;
      if expectedInterval == 0 || lostInterval <= 0 {
        fraction := 0;
      } else {
        fraction := Quotient(ToInt32(lostInterval * 256), expectedInterval) % 256;
      }
    }
  }

  // ---------- probation ----------

  predicate SeqNo(q: int) {
    0 <= q < SEQ_MOD
  }

  /** The state after a sequence of packets. */
  function AfterPackets(s: State, h: seq<int>, minSequential: nat): State {
    if h == [] then s
    else UpdateSeq(AfterPackets(s, h[..|h| - 1], minSequential), h[|h| - 1], minSequential).0
  }

  /** How many consecutive numbers, not crossing from 65535 to 0, the history ends with. */
  function RunLength(h: seq<int>): nat {
    if |h| <= 1 then |h|
    else if h[|h| - 1] == h[|h| - 2] + 1 then RunLength(h[..|h| - 1]) + 1
    else 1
  }

  /** At some point of the history the run it ended with then had the minimum length. */
  predicate RunReached(h: seq<int>, minSequential: nat) {
    h != [] && (RunLength(h) == minSequential || RunReached(h[..|h| - 1], minSequential))
  }

  /** A source that has just become valid at q. */
  ghost predicate JustValid(s: State, q: int) {
    && s.probation == 0 && s.baseSeq == q && s.maxSeq == q && s.cycles == 0 && s.badSeq == SEQ_MOD + 1
    && s.received == 1 && s.expectedPrior == 0 && s.receivedPrior == 0
  }

  /** Probation counts the current run, and ends exactly when the run reaches the minimum. */
  lemma {:induction false} ProbationCountsRun(s: State, id: int, q0: int, h: seq<int>, minSequential: nat)
    requires minSequential >= 2 && SeqNo(q0) && |h| > 0 && forall i :: 0 <= i < |h| ==> SeqNo(h[i])
    ensures var r := AfterPackets(Init(s, id, q0, minSequential), h, minSequential);
      && (!RunReached(h, minSequential) ==>
            r.probation == minSequential - RunLength(h) && r.probation > 0 && r.maxSeq == h[|h| - 1])
      && (RunReached(h, minSequential) ==> r.probation == 0)
      && (RunReached(h, minSequential) && !RunReached(h[..|h| - 1], minSequential) ==> JustValid(r, h[|h| - 1]))
  {
    var n := |h| - 1;
    if n == 0 {
      assert h[..0] == [];
      assert !RunReached(h[..0], minSequential);
    } else {
      ProbationCountsRun(s, id, q0, h[..n], minSequential);
    }
  }

  /** With a minimum of one, the first packet only starts the source properly if it is the announced
      number and that number is not zero; otherwise the source turns valid without being reset. */
  lemma ProbationOfOne(s: State, id: int, q0: int, q: int)
    requires SeqNo(q0) && SeqNo(q)
    ensures var r := AfterPackets(Init(s, id, q0, 1), [q], 1);
      r.probation == 0 && (JustValid(r, q) <==> q == q0 && q0 != 0)
  {
    assert [q][..0] == [];
  }

  /** On probation the answer is yes for exactly the packet that completes the run. */
  lemma ProbationAnswers(s: State, id: int, q0: int, h: seq<int>, minSequential: nat)
    requires minSequential >= 2 && SeqNo(q0) && |h| > 0 && forall i :: 0 <= i < |h| ==> SeqNo(h[i])
    requires !RunReached(h[..|h| - 1], minSequential)
    ensures var r := AfterPackets(Init(s, id, q0, minSequential), h[..|h| - 1], minSequential);
      UpdateSeq(r, h[|h| - 1], minSequential).1 <==> RunReached(h, minSequential)
  {
    var n := |h| - 1;
    if n > 0 {
      ProbationCountsRun(s, id, q0, h[..n], minSequential);
    } else {
      assert h[..0] == [];
    }
  }

  /** With a minimum of one, the answer to the first packet is yes exactly if it starts the source properly as
      announced. */
  lemma FirstAnswerOfOne(s: State, id: int, q0: int, q: int)
    requires SeqNo(q0) && SeqNo(q)
    ensures UpdateSeq(Init(s, id, q0, 1), q, 1).1 <==> q == q0 && q0 != 0
  {
  }

  /** The identifier stays that given at the start. */
  lemma {:induction false} IdKept(s: State, id: int, q0: int, h: seq<int>, minSequential: nat)
    ensures AfterPackets(Init(s, id, q0, minSequential), h, minSequential).id == id
  {
    if h != [] {
      IdKept(s, id, q0, h[..|h| - 1], minSequential);
    }
  }

  // ---------- refinement of an unbounded counter ----------

  /** s is the 16-bit and 32-bit image of a source whose true numbers run from base to highest. */
  ghost predicate Refines(s: State, base: int, highest: int) {
    && s.probation == 0
    && s.maxSeq == highest % SEQ_MOD
    && s.baseSeq == base % SEQ_MOD
    && s.cycles == ((highest / SEQ_MOD - base / SEQ_MOD) * SEQ_MOD) % U32_MOD
  }

  /** True numbers, each from 99 below to 2999 above the highest before it. */
  ghost predicate Orderly(ts: seq<int>, highest: int) {
    ts == [] || (highest - MAX_MISORDER < ts[0] < highest + MAX_DROPOUT &&
                 Orderly(ts[1..], if ts[0] > highest then ts[0] else highest))
  }

  function Highest(ts: seq<int>, highest: int): int {
    if ts == [] then highest else Highest(ts[1..], if ts[0] > highest then ts[0] else highest)
  }

  /** The state after the packets with the given true numbers, of which only 16 bits arrive. */
  function AfterTrue(s: State, ts: seq<int>, minSequential: nat): State
    decreases |ts|
  {
    if ts == [] then s else AfterTrue(UpdateSeq(s, ts[0] % SEQ_MOD, minSequential).0, ts[1..], minSequential)
  }

  lemma AheadOfHighest(m: int, t: int)
    requires m - MAX_MISORDER < t < m + MAX_DROPOUT
    ensures (t % SEQ_MOD - m % SEQ_MOD) % SEQ_MOD == if t >= m then t - m else t - m + SEQ_MOD
  {
  }

  lemma WrapCounts(m: int, t: int)
    requires m <= t < m + MAX_DROPOUT
    ensures t / SEQ_MOD == m / SEQ_MOD + (if t % SEQ_MOD < m % SEQ_MOD then 1 else 0)
  {
  }

  /** One orderly packet is accepted and keeps the image exact. */
  lemma RefinesStep(s: State, base: int, highest: int, t: int, minSequential: nat)
    requires Refines(s, base, highest) && highest - MAX_MISORDER < t < highest + MAX_DROPOUT
    ensures var (r, ok) := UpdateSeq(s, t % SEQ_MOD, minSequential);
      && ok && r.received == s.received + 1 && Refines(r, base, if t > highest then t else highest)
      && r.expectedPrior == s.expectedPrior && r.receivedPrior == s.receivedPrior
  {
    AheadOfHighest(highest, t);
    if t >= highest {
      WrapCounts(highest, t);
    }
  }

  /** The extended count equals the true distance from base to highest, modulo 2^32. */
  lemma ExtendedCount(s: State, base: int, highest: int)
    requires Refines(s, base, highest)
    ensures (s.cycles + s.maxSeq - s.baseSeq) % U32_MOD == (highest - base) % U32_MOD
  {
    var c := (highest / SEQ_MOD - base / SEQ_MOD) * SEQ_MOD;
    assert c + s.maxSeq - s.baseSeq == highest - base;
  }

  /** Sequence tracking refines an unbounded counter over every orderly run. */
  lemma {:induction false} TrackingRefinesCounter(s: State, base: int, highest: int, ts: seq<int>, minSequential: nat)
    requires Refines(s, base, highest) && Orderly(ts, highest)
    ensures var r := AfterTrue(s, ts, minSequential);
      && Refines(r, base, Highest(ts, highest))
      && r.received == s.received + |ts|
      && (r.cycles + r.maxSeq - r.baseSeq) % U32_MOD == (Highest(ts, highest) - base) % U32_MOD
    decreases |ts|
  {
    if ts == [] {
      ExtendedCount(s, base, highest);
    } else {
      RefinesStep(s, base, highest, ts[0], minSequential);
      TrackingRefinesCounter(UpdateSeq(s, ts[0] % SEQ_MOD, minSequential).0, base,
                             if ts[0] > highest then ts[0] else highest, ts[1..], minSequential);
    }
  }

  /** From the packet on that ends probation, whose true number is base, the source counts true distances. */
  lemma CountsFromProbation(s: State, base: int, ts: seq<int>, minSequential: nat)
    requires JustValid(s, base % SEQ_MOD) && Orderly(ts, base)
    ensures var r := AfterTrue(s, ts, minSequential);
      && r.received == 1 + |ts|
      && (r.cycles + r.maxSeq - r.baseSeq) % U32_MOD == (Highest(ts, base) - base) % U32_MOD
  {
    TrackingRefinesCounter(s, base, base, ts, minSequential);
  }

  // ---------- reports on true numbers ----------

  lemma {:induction false} HighestGrows(ts: seq<int>, highest: int)
    ensures Highest(ts, highest) >= highest
    decreases |ts|
  {
    if ts != [] {
      HighestGrows(ts[1..], if ts[0] > highest then ts[0] else highest);
    }
  }

  lemma {:induction false} PriorsKept(s: State, base: int, highest: int, ts: seq<int>, minSequential: nat)
    requires Refines(s, base, highest) && Orderly(ts, highest)
    ensures var r := AfterTrue(s, ts, minSequential);
      r.expectedPrior == s.expectedPrior && r.receivedPrior == s.receivedPrior
    decreases |ts|
  {
    hide Refines, UpdateSeq;
    if ts != [] {
      RefinesStep(s, base, highest, ts[0], minSequential);
      PriorsKept(UpdateSeq(s, ts[0] % SEQ_MOD, minSequential).0, base,
                 if ts[0] > highest then ts[0] else highest, ts[1..], minSequential);
    }
  }

  lemma ExpectedIsDistance(s: State, base: int, highest: int)
    requires Refines(s, base, highest) && 0 <= highest - base + 1 < 0x8000_0000
    ensures Expected(s) == highest - base + 1
  {
    hide Refines, ToInt32;
    ExtendedCount(s, base, highest);
    CountIsDistance(s.cycles + s.maxSeq, s.baseSeq, highest - base);
  }

  lemma CountIsDistance(c: int, b: int, d: int)
    requires (c - b) % U32_MOD == d % U32_MOD && 0 <= d + 1 < 0x8000_0000
    ensures ToInt32(c % U32_MOD - b + 1) == d + 1
  {
    hide ToInt32;
    RemainderOfSum(c, 1 - b);
    RemainderOfSum(c - b, 1);
    RemainderOfSum(d, 1);
    SignedRemainder(c % U32_MOD - b + 1, d + 1);
  }

  lemma RemainderOfSum(x: int, y: int)
    ensures (x % U32_MOD + y) % U32_MOD == (x + y) % U32_MOD
  {
  }

  lemma SignedRemainder(x: int, y: int)
    requires x % U32_MOD == y % U32_MOD && 0 <= y < 0x8000_0000
    ensures ToInt32(x) == y
  {
  }

  /** How a report describes an interval in which so many packets were expected and so many came. */
  function FractionOf(expected: int, came: int): int {
    if expected > came && expected > 0 then (expected - came) * 256 / expected else 0
  }

  lemma ReportedFraction(s: State, expected: int)
    requires Expected(s) == expected && 0 <= expected - s.expectedPrior
    requires expected > s.expectedPrior ==> s.received > s.receivedPrior
    requires LostInterval(s) < 0x80_0000
    ensures UpdateLost(s).fraction == FractionOf(expected - s.expectedPrior, s.received - s.receivedPrior)
  {
    var e, l := expected - s.expectedPrior, LostInterval(s);
    if e > 0 && l > 0 {
      hide Quotient, ToInt32;
      NoTruncation(l, e);
    }
  }

  /** Between two reports come the packets ts: the second report gives the part lost of those expected in between,
      and the total lost since base, whatever was reported before. */
  lemma ReportBetween(s: State, base: int, highest: int, ts: seq<int>, minSequential: nat)
    requires Refines(s, base, highest) && Orderly(ts, highest) && base - 1 <= highest
    requires Highest(ts, highest) - base + 1 < 0x8000_0000 && Highest(ts, highest) - highest - |ts| < 0x80_0000
    ensures var r := UpdateLost(AfterTrue(UpdateLost(s), ts, minSequential));
      && r.fraction == FractionOf(Highest(ts, highest) - highest, |ts|)
      && r.lost == ToInt24(Highest(ts, highest) - base + 1 - (s.received + |ts|))
  {
    hide Orderly, FractionOf, ToInt24;
    var t := UpdateLost(s);
    HighestGrows(ts, highest);
    ExpectedIsDistance(s, base, highest);
    assert Refines(t, base, highest);
    TrackingRefinesCounter(t, base, highest, ts, minSequential);
    PriorsKept(t, base, highest, ts, minSequential);
    var u := AfterTrue(t, ts, minSequential);
    ExpectedIsDistance(u, base, Highest(ts, highest));
    ReportedFraction(u, Highest(ts, highest) - base + 1);
  }

  /** The first report of a source that became valid with the packet base counts that packet and those after it. */
  lemma FirstReport(s: State, base: int, ts: seq<int>, minSequential: nat)
    requires JustValid(s, base % SEQ_MOD) && Orderly(ts, base)
    requires Highest(ts, base) - base + 1 < 0x8000_0000 && Highest(ts, base) - base - |ts| < 0x80_0000
    ensures var r := UpdateLost(AfterTrue(s, ts, minSequential));
      && r.fraction == FractionOf(Highest(ts, base) - base + 1, 1 + |ts|)
      && r.lost == ToInt24(Highest(ts, base) - base - |ts|)
  {
    hide Orderly, FractionOf, ToInt24;
    HighestGrows(ts, base);
    TrackingRefinesCounter(s, base, base, ts, minSequential);
    PriorsKept(s, base, base, ts, minSequential);
    var u := AfterTrue(s, ts, minSequential);
    ExpectedIsDistance(u, base, Highest(ts, base));
    ReportedFraction(u, Highest(ts, base) - base + 1);
  }

  // ---------- runs of a valid source ----------

  datatype Op = Packet(seqno: int) | Report

  /** A run: the state, the losses reported since the last reset, and the last packet that jumped since then. */
  datatype Run = Run(s: State, lossSum: int, jump: Jump)

  datatype Jump = NoJump | JumpTo(seqno: int)

  function Next(r: Run, op: Op, minSequential: nat): Run {
    match op
    case Packet(q) =>
      var (s, ok) := UpdateSeq(r.s, q, minSequential);
      if !LargeJump(r.s, q) then r.(s := s)
      else if ok then Run(s, 0, NoJump)
      else Run(s, r.lossSum, JumpTo(q))
    case Report => Run(UpdateLost(r.s), r.lossSum + LostInterval(r.s), r.jump)
  }

  function RunOps(r: Run, ops: seq<Op>, minSequential: nat): Run {
    if ops == [] then r else Next(RunOps(r, ops[..|ops| - 1], minSequential), ops[|ops| - 1], minSequential)
  }

  /** Once valid, a source stays valid. */
  lemma {:induction false} StaysValid(r: Run, ops: seq<Op>, minSequential: nat)
    requires r.s.probation == 0
    ensures RunOps(r, ops, minSequential).s.probation == 0
  {
    if ops != [] {
      StaysValid(r, ops[..|ops| - 1], minSequential);
    }
  }

  // ---------- resynchronisation ----------

  predicate PacketsAreSeqNos(ops: seq<Op>) {
    forall i :: 0 <= i < |ops| && ops[i].Packet? ==> SeqNo(ops[i].seqno)
  }

  /** The restart number belongs to the last packet that jumped since the last reset. */
  predicate JumpKnown(r: Run) {
    && r.s.probation == 0
    && r.s.badSeq == if r.jump == NoJump then SEQ_MOD + 1 else (r.jump.seqno + 1) % SEQ_MOD
  }

  lemma JumpKnownStep(r: Run, op: Op, minSequential: nat)
    requires JumpKnown(r) && (op.Packet? ==> SeqNo(op.seqno))
    ensures JumpKnown(Next(r, op, minSequential))
  {
  }

  lemma {:induction false} JumpKnownRun(r: Run, ops: seq<Op>, minSequential: nat)
    requires JumpKnown(r) && PacketsAreSeqNos(ops)
    ensures JumpKnown(RunOps(r, ops, minSequential))
  {
    hide JumpKnown, Next;
    if ops != [] {
      var n := |ops| - 1;
      JumpKnownRun(r, ops[..n], minSequential);
      JumpKnownStep(RunOps(r, ops[..n], minSequential), ops[n], minSequential);
    }
  }

  /** What a packet in the large-jump zone does. */
  ghost predicate JumpedOrRestarted(r: Run, q: int, minSequential: nat) {
    var (t, ok) := UpdateSeq(r.s, q, minSequential);
    && (ok <==> r.jump.JumpTo? && q == (r.jump.seqno + 1) % SEQ_MOD)
    && (ok ==> t == ResetSeq(r.s, q).(received := 1))
    && (!ok ==> t == r.s.(badSeq := (q + 1) % SEQ_MOD))
  }

  /** In every run of a valid source, whatever its counters, a packet at least 3000 ahead of the highest number and
      at least 100 behind it, modulo 2^16, changes nothing but the expected restart, unless it directly follows
      the last packet that jumped since the last reset: then the source restarts there. */
  lemma JumpOrRestart(s: State, ops: seq<Op>, q: int, minSequential: nat)
    requires s.probation == 0 && s.badSeq == SEQ_MOD + 1 && PacketsAreSeqNos(ops) && SeqNo(q)
    requires MAX_DROPOUT <= (q - RunOps(Run(s, 0, NoJump), ops, minSequential).s.maxSeq) % SEQ_MOD
    requires (q - RunOps(Run(s, 0, NoJump), ops, minSequential).s.maxSeq) % SEQ_MOD <= SEQ_MOD - MAX_MISORDER
    ensures JumpedOrRestarted(RunOps(Run(s, 0, NoJump), ops, minSequential), q, minSequential)
  {
    hide RunOps;
    JumpKnownRun(Run(s, 0, NoJump), ops, minSequential);
  }

  // ---------- loss conservation ----------

  /** The reported losses are those up to the last report. */
  predicate LossKnown(r: Run) {
    r.s.probation == 0 && r.lossSum == r.s.expectedPrior - r.s.receivedPrior
  }

  lemma LossKnownStep(r: Run, op: Op, minSequential: nat)
    requires LossKnown(r)
    ensures LossKnown(Next(r, op, minSequential))
  {
  }

  lemma {:induction false} LossKnownRun(r: Run, ops: seq<Op>, minSequential: nat)
    requires LossKnown(r)
    ensures LossKnown(RunOps(r, ops, minSequential))
  {
    hide LossKnown, Next;
    if ops != [] {
      var n := |ops| - 1;
      LossKnownRun(r, ops[..n], minSequential);
      LossKnownStep(RunOps(r, ops[..n], minSequential), ops[n], minSequential);
    }
  }

  /** After a report the sum of all losses reported since the last reset is the cumulative loss, which is
      stored in 24 bits. */
  predicate LossesMatch(r: Run) {
    && r.lossSum == Expected(r.s) - r.s.received
    && r.s.lost == ToInt24(r.lossSum)
    && (-0x80_0000 <= r.lossSum < 0x80_0000 ==> r.s.lost == r.lossSum)
  }

  lemma ReportMatches(r: Run, minSequential: nat)
    requires LossKnown(r)
    ensures LossesMatch(Next(r, Report, minSequential))
  {
  }

  /** In every run of a source that starts valid with nothing reported, the losses of all reports since the
      last reset, each taken without overflow, add up to the cumulative loss. */
  lemma LossesAddUp(s: State, ops: seq<Op>, minSequential: nat)
    requires s.probation == 0 && s.expectedPrior == s.receivedPrior == 0
    ensures LossesMatch(RunOps(Run(s, 0, NoJump), ops + [Report], minSequential))
  {
    hide Next, LossesMatch;
    LossKnownRun(Run(s, 0, NoJump), ops, minSequential);
    ReportMatches(RunOps(Run(s, 0, NoJump), ops, minSequential), minSequential);
    assert (ops + [Report])[..|ops|] == ops;
  }

  /** Expected and received counts at the last report since the last restart, zero if there was none. */
  function CountsReported(r: Run, ops: seq<Op>, minSequential: nat): (int, int) {
    if ops == [] then (0, 0)
    else
      var n := |ops| - 1;
      var before := RunOps(r, ops[..n], minSequential).s;
      if ops[n].Report? then (Expected(before), before.received)
      else if Restarts(before, ops[n]) then (0, 0)
      else CountsReported(r, ops[..n], minSequential)
  }

  lemma PriorsStep(r: Run, op: Op, minSequential: nat)
    requires r.s.probation == 0
    ensures var t := Next(r, op, minSequential).s;
      (t.expectedPrior, t.receivedPrior) ==
        if op.Report? then (Expected(r.s), r.s.received)
        else if Restarts(r.s, op) then (0, 0)
        else (r.s.expectedPrior, r.s.receivedPrior)
  {
  }

  /** In every run of a source that starts valid with nothing reported, the stored counts are those of the last
      report since the last restart. */
  lemma {:induction false} PriorsKnown(s: State, ops: seq<Op>, minSequential: nat)
    requires s.probation == 0 && s.expectedPrior == s.receivedPrior == 0
    ensures var t := RunOps(Run(s, 0, NoJump), ops, minSequential).s;
      (t.expectedPrior, t.receivedPrior) == CountsReported(Run(s, 0, NoJump), ops, minSequential) && t.id == s.id
  {
    hide Next, Restarts, Expected;
    if ops != [] {
      var n := |ops| - 1;
      PriorsKnown(s, ops[..n], minSequential);
      StaysValid(Run(s, 0, NoJump), ops[..n], minSequential);
      PriorsStep(RunOps(Run(s, 0, NoJump), ops[..n], minSequential), ops[n], minSequential);
      IdStep(RunOps(Run(s, 0, NoJump), ops[..n], minSequential), ops[n], minSequential);
    }
  }

  lemma IdStep(r: Run, op: Op, minSequential: nat)
    ensures Next(r, op, minSequential).s.id == r.s.id
  {
  }

  // ---------- the fraction lost ----------

  /** The number of packets expected so far, without overflow. */
  function Span(s: State): int {
    s.cycles + s.maxSeq - s.baseSeq + 1
  }

  /** The packets expected and those received fit an `int`. */
  predicate InRange(s: State) {
    Span(s) < 0x8000_0000 && s.received < 0x8000_0000
  }

  /** What runs of a properly started source keep, as long as its counters are in range. */
  predicate Good(s: State) {
    && s.probation == 0 && SeqNo(s.maxSeq) && SeqNo(s.baseSeq) && s.cycles >= 0
    && 0 <= s.expectedPrior <= Span(s) && 0 <= s.receivedPrior <= s.received
    && (Span(s) > s.expectedPrior ==> s.received > s.receivedPrior)
  }

  predicate Restarts(s: State, op: Op) {
    op.Packet? && LargeJump(s, op.seqno) && op.seqno == s.badSeq
  }

  /** Since the last restart, all states are in range and the packets carry 16-bit numbers. */
  predicate WellFormed(r: Run, ops: seq<Op>, minSequential: nat) {
    && InRange(RunOps(r, ops, minSequential).s)
    && (ops != [] ==>
          var before, op := ops[..|ops| - 1], ops[|ops| - 1];
          && (op.Packet? ==> SeqNo(op.seqno))
          && (Restarts(RunOps(r, before, minSequential).s, op) || WellFormed(r, before, minSequential)))
  }

  lemma ExpectedIsSpan(s: State)
    requires InRange(s) && SeqNo(s.maxSeq) && SeqNo(s.baseSeq) && s.cycles >= 0
    ensures Expected(s) == Span(s)
  {
  }

  lemma GoodPacket(s: State, q: int, minSequential: nat)
    requires s.probation == 0 && SeqNo(q)
    requires Restarts(s, Packet(q)) || (Good(s) && InRange(s))
    ensures Good(UpdateSeq(s, q, minSequential).0)
  {
  }

  lemma GoodReport(s: State)
    requires Good(s) && InRange(s)
    ensures Good(UpdateLost(s))
  {
    ExpectedIsSpan(s);
  }

  lemma {:induction false} GoodRun(r: Run, ops: seq<Op>, minSequential: nat)
    requires Good(r.s) && WellFormed(r, ops, minSequential)
    ensures Good(RunOps(r, ops, minSequential).s) && InRange(RunOps(r, ops, minSequential).s)
  {
    hide InRange, SeqNo, UpdateSeq, UpdateLost, LargeJump;
    if ops != [] {
      var n := |ops| - 1;
      var before := RunOps(r, ops[..n], minSequential);
      StaysValid(r, ops[..n], minSequential);
      if !Restarts(before.s, ops[n]) {
        GoodRun(r, ops[..n], minSequential);
      }
      if ops[n].Packet? {
        GoodPacket(before.s, ops[n].seqno, minSequential);
      } else {
        GoodReport(before.s);
      }
    }
  }

  /** The fraction UpdateLost stores is the exact quotient, below 256, so its 8-bit cast never truncates. */
  ghost predicate ExactFraction(s: State) {
    var expected := Expected(s) - s.expectedPrior;
    && 0 <= expected
    && (expected > 0 ==> s.received > s.receivedPrior && LostInterval(s) < expected)
    && (expected > 0 && LostInterval(s) > 0 ==> LostInterval(s) * 256 / expected < 256)
    && (LostInterval(s) < 0x80_0000 ==>
          UpdateLost(s).fraction == if expected > 0 && LostInterval(s) > 0 then LostInterval(s) * 256 / expected else 0)
  }

  lemma GoodFraction(s: State)
    requires Good(s) && InRange(s)
    ensures ExactFraction(s)
  {
    ExpectedIsSpan(s);
    var expected, l := Expected(s) - s.expectedPrior, LostInterval(s);
    hide Expected, LostInterval, Span, ToInt32, Quotient;
    if expected > 0 && l > 0 {
      BelowOne(l, expected);
      if l < 0x80_0000 {
        NoTruncation(l, expected);
      }
    }
  }

  lemma NoTruncation(l: int, e: int)
    requires 0 < l < e && l < 0x80_0000
    ensures Quotient(ToInt32(l * 256), e) % 256 == l * 256 / e
  {
    BelowOne(l, e);
    var x := l * 256;
    assert ToInt32(x) == x;
    SmallMod(x / e);
  }

  lemma SmallMod(x: int)
    requires 0 <= x < 256
    ensures x % 256 == x
  {
  }

  lemma BelowOne(l: int, e: int)
    requires 0 < l < e
    ensures 0 <= l * 256 / e < 256
  {
    assert l * 256 < 256 * e;
  }

  /** A valid source with nothing counted yet but possibly the packet that made it valid. */
  predicate Fresh(s: State) {
    && s.probation == 0 && SeqNo(s.maxSeq) && SeqNo(s.baseSeq) && s.cycles == 0
    && 0 <= s.received <= 1 && s.expectedPrior == s.receivedPrior == 0
  }

  /** It expects nothing yet, or has received what it expects. */
  predicate ProperStart(s: State) {
    Span(s) == 0 || (Span(s) > 0 && s.received > 0)
  }

  /** From a proper start, the fraction is exact in every state of every run. */
  lemma FractionExact(s: State, ops: seq<Op>, minSequential: nat)
    requires Fresh(s) && ProperStart(s) && WellFormed(Run(s, 0, NoJump), ops, minSequential)
    ensures ExactFraction(RunOps(Run(s, 0, NoJump), ops, minSequential).s)
  {
    hide InRange, RunOps, WellFormed, ExactFraction;
    GoodRun(Run(s, 0, NoJump), ops, minSequential);
    GoodFraction(RunOps(Run(s, 0, NoJump), ops, minSequential).s);
  }

  /** Without a proper start it already fails before any further packet: the fraction is exact over all runs
      if and only if the start is proper. */
  lemma FractionNeedsProperStart(s: State)
    requires Fresh(s)
    ensures ProperStart(s) <==> ExactFraction(s)
    ensures ProperStart(s) <==>
      forall ops, minSequential: nat | WellFormed(Run(s, 0, NoJump), ops, minSequential) ::
        ExactFraction(RunOps(Run(s, 0, NoJump), ops, minSequential).s)
  {
    assert InRange(s);
    ExpectedIsSpan(s);
    if ProperStart(s) {
      GoodFraction(s);
      forall ops, minSequential: nat | WellFormed(Run(s, 0, NoJump), ops, minSequential)
        ensures ExactFraction(RunOps(Run(s, 0, NoJump), ops, minSequential).s)
      {
        FractionExact(s, ops, minSequential);
      }
    } else {
      assert !ExactFraction(s);
      NoOps(s);
    }
  }

  lemma NoOps(s: State)
    requires InRange(s)
    ensures WellFormed(Run(s, 0, NoJump), [], 0) && RunOps(Run(s, 0, NoJump), [], 0).s == s
  {
  }

  /** With a minimum of two or more, probation always ends in a proper start. */
  lemma ProperAfterProbation(s: State, q: int)
    requires JustValid(s, q) && SeqNo(q)
    ensures Fresh(s) && ProperStart(s)
  {
  }

  /** With a minimum of one, the first packet gives a proper start exactly if it is the announced number,
      unless that is zero, or the one before it. */
  lemma ProperWithMinimumOne(s: State, id: int, q0: int, q: int)
    requires SeqNo(q0) && SeqNo(q)
    ensures var r := AfterPackets(Init(s, id, q0, 1), [q], 1);
      Fresh(r) && (ProperStart(r) <==> (q == q0 && q0 != 0) || q == q0 - 1)
  {
    assert [q][..0] == [];
  }

  /** Without probation, the source starts properly exactly if the announced number is not zero. */
  lemma ProperWithoutProbation(s: State, id: int, q0: int)
    requires SeqNo(q0) && s.probation == 0
    ensures var r := Init(s, id, q0, 0);
      Fresh(r) && (ProperStart(r) <==> q0 != 0)
  {
  }

  /** Two starts that go wrong: 200 after 100 was announced, where all of 101 packets are lost and the fraction
      stored is 0; and 0 announced without probation, where 65536 packets are expected before any has come. */
  lemma WrongFractions(s: State, id: int)
    requires s.probation == 0
    ensures var r := AfterPackets(Init(s, id, 100, 1), [200], 1);
      Expected(r) == LostInterval(r) == 101 && UpdateLost(r).lost == 101 && UpdateLost(r).fraction == 0
    ensures var r := Init(s, id, 0, 0);
      Expected(r) == LostInterval(r) == 0x1_0000 && UpdateLost(r).fraction == 0
  {
    assert [200][..0] == [];
  }
}
