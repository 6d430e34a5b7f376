/** The ring buffer used by one thread (sdr/rtp_sdr_rbuf.c): a bounded first-in first-out queue that
    keeps one slot free. */
module RingBuffer {

  datatype Option<T> = None | Some(value: T)

  function Advance(value: nat, max: nat): nat {
    if value + 1 == max then 0 else value + 1
  }

  /** The items from tail up to, not including, head, around the end of the buffer. */
  ghost function Window<T>(s: seq<T>, tail: nat, head: nat): seq<T>
    requires tail < |s| && head < |s|
  {
    if tail <= head then s[tail..head] else s[tail..] + s[..head]
  }

  /** Moving the head over a slot adds that slot to the window. */
  lemma WindowGrows<T>(b: seq<T>, tail: nat, head: nat)
    requires tail < |b| && head < |b| && Advance(head, |b|) != tail
    ensures Window(b, tail, Advance(head, |b|)) == Window(b, tail, head) + [b[head]]
  {
  }

  /** Moving the tail takes the oldest slot out of the window. */
  lemma WindowShrinks<T>(b: seq<T>, tail: nat, head: nat)
    requires tail < |b| && head < |b| && head != tail
    ensures Window(b, tail, head) == [b[tail]] + Window(b, Advance(tail, |b|), head)
  {
  }

  /** The slot at the head lies outside the window. */
  lemma WindowKept<T>(b: seq<T>, tail: nat, head: nat, x: T)
    requires tail < |b| && head < |b|
    ensures Window(b[head := x], tail, head) == Window(b, tail, head)
  {
  }

  lemma WindowFull<T>(b: seq<T>, tail: nat, head: nat)
    requires 1 < |b| && tail < |b| && head < |b|
    ensures |Window(b, tail, head)| == |b| - 1 <==> Advance(head, |b|) == tail
    ensures Window(b, tail, head) == [] <==> head == tail
  {
  }

  lemma WindowRoom<T>(b: seq<T>, tail: nat, head: nat)
    requires 1 < |b| && tail < |b| && head < |b|
    ensures |Window(b, tail, head)| <= |b| - 1
  {
  }

  // ---------- the queue the buffer stands for ----------

  datatype Op<T> = Put(x: T) | TryPut(x: T) | Get | Reset

  /** A queue with everything ever accepted, everything that has left it, what get returned, and what try_put
      answered, oldest first. */
  datatype Fifo<T> = Fifo(queue: seq<T>, accepted: seq<T>, gone: seq<T>, got: seq<T>, answers: seq<bool>)

  function Enqueue<T>(f: Fifo<T>, x: T): Fifo<T> {
    f.(queue := f.queue + [x], accepted := f.accepted + [x])
  }

  function DropOldest<T>(f: Fifo<T>): Fifo<T>
    requires f.queue != []
  {
    f.(queue := f.queue[1..], gone := f.gone + [f.queue[0]])
  }

  function Apply<T>(f: Fifo<T>, op: Op<T>, capacity: nat): Fifo<T>
    requires capacity > 0
  {
    match op
    case Put(x) => Enqueue(if |f.queue| >= capacity then DropOldest(f) else f, x)
    case TryPut(x) =>
      (if |f.queue| >= capacity then f else Enqueue(f, x)).(answers := f.answers + [|f.queue| < capacity])
    case Get => if f.queue == [] then f else DropOldest(f).(got := f.got + [f.queue[0]])
    case Reset => f.(queue := [], gone := f.gone + f.queue)
  }

  function ApplyAll<T>(f: Fifo<T>, ops: seq<Op<T>>, capacity: nat): Fifo<T>
    requires capacity > 0
  {
    if ops == [] then f else Apply(ApplyAll(f, ops[..|ops| - 1], capacity), ops[|ops| - 1], capacity)
  }

  function Empty<T>(): Fifo<T> {
    Fifo([], [], [], [], [])
  }

  lemma OrderKeptStep<T>(f: Fifo<T>, op: Op<T>, capacity: nat)
    requires capacity > 0 && |f.queue| <= capacity && f.accepted == f.gone + f.queue
    ensures var g := Apply(f, op, capacity);
      |g.queue| <= capacity && g.accepted == g.gone + g.queue
  {
  }

  /** Over every run: bounded, and items leave in the order in which they were accepted. */
  lemma {:induction false} OrderKept<T>(ops: seq<Op<T>>, capacity: nat)
    requires capacity > 0
    ensures var f := ApplyAll(Empty(), ops, capacity);
      |f.queue| <= capacity && f.accepted == f.gone + f.queue
  {
    hide Apply;
    if ops != [] {
      OrderKept(ops[..|ops| - 1], capacity);
      OrderKeptStep(ApplyAll(Empty(), ops[..|ops| - 1], capacity), ops[|ops| - 1], capacity);
    }
  }

  /** The items that callers know to be in: those put, and those for which try_put answered yes. */
  function Told<T>(ops: seq<Op<T>>, answers: seq<bool>): seq<T> {
    if ops == [] then []
    else
      var n, m := |ops| - 1, |answers| - 1;
      match ops[n]
      case Put(x) => Told(ops[..n], answers) + [x]
      case TryPut(x) =>
        if answers == [] then Told(ops[..n], answers)
        else Told(ops[..n], answers[..m]) + (if answers[m] then [x] else [])
      case Get => Told(ops[..n], answers)
      case Reset => Told(ops[..n], answers)
  }

  /** Over every run, what was accepted is what callers were told. */
  lemma {:induction false} AcceptedAsTold<T>(ops: seq<Op<T>>, capacity: nat)
    requires capacity > 0
    ensures var f := ApplyAll(Empty(), ops, capacity);
      f.accepted == Told(ops, f.answers)
  {
    if ops != [] {
      AcceptedAsTold(ops[..|ops| - 1], capacity);
    }
  }

  /** If only try_put and get are used, what get returns is everything accepted but what is still inside. */
  lemma {:induction false} NothingLost<T>(ops: seq<Op<T>>, capacity: nat)
    requires capacity > 0
    requires forall i :: 0 <= i < |ops| ==> ops[i].TryPut? || ops[i].Get?
    ensures var f := ApplyAll(Empty(), ops, capacity);
      f.accepted == f.got + f.queue
  {
    if ops != [] {
      NothingLost(ops[..|ops| - 1], capacity);
    }
  }

  function Puts<T>(xs: seq<T>): (ops: seq<Op<T>>)
    ensures |ops| == |xs| && forall i :: 0 <= i < |xs| ==> ops[i] == Put(xs[i])
  {
    seq(|xs|, i requires 0 <= i < |xs| => Put(xs[i]))
  }

  /** The last items of xs, at most capacity of them. */
  function Newest<T>(xs: seq<T>, capacity: nat): seq<T> {
    if |xs| <= capacity then xs else xs[|xs| - capacity..]
  }

  lemma NewestStep<T>(xs: seq<T>, x: T, capacity: nat)
    requires capacity > 0
    ensures Newest(xs + [x], capacity) ==
      (if |Newest(xs, capacity)| >= capacity then Newest(xs, capacity)[1..] else Newest(xs, capacity)) + [x]
  {
  }

  /** After puts alone, the queue holds exactly the newest items that fit. */
  lemma {:induction false} KeepsNewest<T>(xs: seq<T>, capacity: nat)
    requires capacity > 0
    ensures ApplyAll(Empty(), Puts(xs), capacity).queue == Newest(xs, capacity)
  {
    hide Newest, Puts;
    if xs == [] {
      NewestOfNone<T>(capacity);
    } else {
      var n := |xs| - 1;
      assert Puts(xs)[..n] == Puts(xs[..n]);
      KeepsNewest(xs[..n], capacity);
      NewestStep(xs[..n], xs[n], capacity);
      assert xs == xs[..n] + [xs[n]];
    }
  }

  lemma NewestOfNone<T>(capacity: nat)
    ensures Newest<T>([], capacity) == []
  {
  }

  // ---------- the buffer ----------

  class Rbuf<T> {
    const buffer: array<T>
    const max: nat
    var head: nat
    var tail: nat

    ghost predicate Valid()
      reads this
    {
      1 < max <= buffer.Length && head < max && tail < max
    }

    ghost function Contents(): (q: seq<T>)
      reads this, buffer
      requires Valid()
      ensures |q| == if tail <= head then head - tail else max + head - tail
    {
      Window(buffer[..max], tail, head)
    }

    /** rtp_sdr_rbuf_init. */
    constructor (buffer: array<T>, size: nat)
      requires size > 1 && buffer.Length >= size
      ensures Valid() && this.buffer == buffer && max == size && Contents() == []
    {
      this.buffer := buffer;
      this.max := size;
      head, tail := 0, 0;
    }

    /** rtp_sdr_rbuf_reset. */
    method ResetBuffer()
      requires Valid()
      modifies this
      ensures Valid() && Contents() == []
    {
      head, tail := 0, 0;
    }

    /** rtp_sdr_rbuf_empty. */
    method IsEmpty() returns (r: bool)
      requires Valid()
      ensures r <==> Contents() == []
    {
      r := head == tail;
    }

    /** rtp_sdr_rbuf_full. */
    method IsFull() returns (r: bool)
      requires Valid()
      ensures r <==> |Contents()| == max - 1
    {
      r := Advance(head, max) == tail;
    }

    /** rtp_sdr_rbuf_size. */
    method Size() returns (size: nat)
      requires Valid()
      ensures size == |Contents()|
    {
      size := max - 1;
      var full := IsFull();
      if !full {
        if head >= tail {
          size := head - tail;
        } else {
          size := max + head - tail;
        }
      }
    }

    /** rtp_sdr_rbuf_put: on a full buffer the oldest item makes room. */
    method PutItem(data: T)
      requires Valid()
      modifies this, buffer
      ensures Valid()
      ensures Contents() ==
        (if |old(Contents())| == max - 1 then old(Contents())[1..] else old(Contents())) + [data]
    {
      hide Window;
      ghost var b := buffer[..max];
      WindowFull(b, tail, head);
      WindowKept(b, tail, head, data);
      buffer[head] := data;
      assert buffer[..max] == b[head := data];
      var full := IsFull();
      if full {
        WindowShrinks(b[head := data], tail, head);
        tail := Advance(tail, max);
        WindowFull(b[head := data], tail, head);
      }
      WindowGrows(b[head := data], tail, head);
      head := Advance(head, max);
    }

    /** rtp_sdr_rbuf_try_put. */
    method TryPutItem(data: T) returns (ok: bool)
      requires Valid()
      modifies this, buffer
      ensures Valid()
      ensures ok <==> |old(Contents())| < max - 1
      ensures Contents() == if ok then old(Contents()) + [data] else old(Contents())
    {
      ok := false;
      var full := IsFull();
      if !full {
        buffer[head] := data;
        head := Advance(head, max);
        ok := true;
      }
    }

    /** rtp_sdr_rbuf_get. */
    method GetItem() returns (r: Option<T>)
      requires Valid()
      modifies this
      ensures Valid()
      ensures old(Contents()) == [] ==> r == None && Contents() == []
      ensures old(Contents()) != [] ==> r == Some(old(Contents())[0]) && Contents() == old(Contents())[1..]
    {
      r := None;
      var empty := IsEmpty();
      if !empty {
        r := Some(buffer[tail]);
        tail := Advance(tail, max);
      }
    }

    /** rtp_sdr_rbuf_peek: copies the oldest items and changes nothing. */
    method Peek(data: array<T>, count: nat) returns (ok: bool)
      requires Valid() && data != buffer && (count <= |Contents()| ==> count <= data.Length)
      modifies data
      ensures ok <==> Contents() != [] && count <= |Contents()|
      ensures ok ==> data[..count] == Contents()[..count] && data[count..] == old(data[count..])
      ensures !ok ==> data[..] == old(data[..])
    {
      var empty := IsEmpty();
      var size := Size();
      if empty || count > size {
        return false;
      }
      var pos := tail;
      for i := 0 to count
        invariant pos == if tail + i < max then tail + i else tail + i - max
        invariant data[..i] == Contents()[..i]
        invariant data[count..] == old(data[count..])
      {
        assert buffer[pos] == Contents()[i];
        data[i] := buffer[pos];
        pos := Advance(pos, max);
      }
      return true;
    }
  }

  /** Any sequence of operations on a fresh buffer does to it what it does to the queue, gets the same items,
      and gives the same answers. */
  method Replay<T>(buffer: array<T>, size: nat, ops: seq<Op<T>>)
    returns (b: Rbuf<T>, got: seq<T>, answers: seq<bool>)
    requires size > 1 && buffer.Length >= size
    modifies buffer
    ensures fresh(b) && b.Valid() && b.buffer == buffer && b.max == size
    ensures b.Contents() == ApplyAll(Empty(), ops, size - 1).queue
    ensures got == ApplyAll(Empty(), ops, size - 1).got
    ensures answers == ApplyAll(Empty(), ops, size - 1).answers
  {
    b := new Rbuf(buffer, size);
    got, answers := [], [];
    for i := 0 to |ops|
      invariant fresh(b) && b.Valid() && b.buffer == buffer && b.max == size
      invariant b.Contents() == ApplyAll(Empty(), ops[..i], size - 1).queue
      invariant got == ApplyAll(Empty(), ops[..i], size - 1).got
      invariant answers == ApplyAll(Empty(), ops[..i], size - 1).answers
    {
      assert ops[..i + 1][..i] == ops[..i];
      match ops[i]
      case Put(x) => b.PutItem(x);
      case TryPut(x) =>
        var ok := b.TryPutItem(x);
        answers := answers + [ok];
      case Get =>
        var r := b.GetItem();
        if r.Some? {
          got := got + [r.value];
        }
      case Reset => b.ResetBuffer();
    }
    assert ops[..|ops|] == ops;
  }
}
