/** One producer and one consumer sharing the ring buffer (sdr/rtp_sdr_rbuf.c, try_put and get).

    Every interleaving of their steps is a sequence of actions. A step reads or writes the shared
    fields once; such reads and writes are taken to be atomic and seen by both threads in one order. */
module SpscRing {
  import opened RingBuffer

  /** try_put: check for room, write the slot, publish the head. */
  datatype Producer<T> = Ready | Writing(x: T) | Publishing(x: T)

  /** get: check for an item, copy the slot, publish the tail. */
  datatype Consumer<T> = Waiting | Copying | Releasing(v: T)

  /** accepted and got list the items of successful calls in the order of their completion. */
  datatype State<T> = State(buffer: seq<T>, head: nat, tail: nat, producer: Producer<T>, consumer: Consumer<T>,
                            accepted: seq<T>, got: seq<T>)

  datatype Action<T> = StartPut(x: T) | WriteSlot | PublishHead | StartGet | CopySlot | PublishTail

  ghost predicate InBounds<T>(s: State<T>) {
    s.head < |s.buffer| && s.tail < |s.buffer|
  }

  /** What the other thread has published but this one has not yet taken. */
  ghost function Unread<T>(s: State<T>): seq<T>
    requires InBounds(s)
  {
    Window(s.buffer, s.tail, s.head)
  }

  /** One step of either thread; an action that is not next in its thread does nothing. */
  ghost function Next<T>(s: State<T>, a: Action<T>): (t: State<T>)
    requires InBounds(s)
    ensures InBounds(t)
  {
    var max := |s.buffer|;
    match a
    case StartPut(x) =>
      if s.producer.Ready? && Advance(s.head, max) != s.tail then s.(producer := Writing(x)) else s
    case WriteSlot =>
      if s.producer.Writing? then
        s.(buffer := s.buffer[s.head := s.producer.x], producer := Publishing(s.producer.x))
      else s
    case PublishHead =>
      if s.producer.Publishing? then
        s.(head := Advance(s.head, max), producer := Ready, accepted := s.accepted + [s.producer.x])
      else s
    case StartGet =>
      if s.consumer.Waiting? && s.head != s.tail then s.(consumer := Copying) else s
    case CopySlot =>
      if s.consumer.Copying? then s.(consumer := Releasing(s.buffer[s.tail])) else s
    case PublishTail =>
      if s.consumer.Releasing? then
        s.(tail := Advance(s.tail, max), consumer := Waiting, got := s.got + [s.consumer.v])
      else s
  }

  ghost predicate Initial<T>(s: State<T>) {
    && |s.buffer| > 1 && s.head == s.tail == 0 && s.producer == Ready && s.consumer == Waiting
    && s.accepted == [] && s.got == []
  }

  ghost predicate Inv<T>(s: State<T>) {
    && |s.buffer| > 1 && InBounds(s)
    && s.accepted == s.got + Unread(s)
    && (s.producer != Ready ==> |Unread(s)| < |s.buffer| - 1)
    && (s.producer.Publishing? ==> s.buffer[s.head] == s.producer.x)
    && (s.consumer != Waiting ==> Unread(s) != [])
    && (s.consumer.Releasing? ==> s.consumer.v == Unread(s)[0])
  }

  lemma InvStep<T>(s: State<T>, a: Action<T>)
    requires Inv(s)
    ensures Inv(Next(s, a))
  {
    hide Window;
    WindowFull(s.buffer, s.tail, s.head);
    match a
    case StartPut(x) =>
      WindowRoom(s.buffer, s.tail, s.head);
    case WriteSlot =>
      if s.producer.Writing? {
        WindowKept(s.buffer, s.tail, s.head, s.producer.x);
      }
    case PublishHead =>
      if s.producer.Publishing? {
        WindowGrows(s.buffer, s.tail, s.head);
      }
    case StartGet =>
    case CopySlot =>
      if s.consumer.Copying? {
        WindowShrinks(s.buffer, s.tail, s.head);
      }
    case PublishTail =>
      if s.consumer.Releasing? {
        WindowShrinks(s.buffer, s.tail, s.head);
      }
  }

  /** The state after a sequence of steps, in whatever order the threads take them. */
  ghost function After<T>(s: State<T>, actions: seq<Action<T>>): (t: State<T>)
    requires InBounds(s)
    ensures InBounds(t)
    decreases |actions|
  {
    if actions == [] then s else After(Next(s, actions[0]), actions[1..])
  }

  lemma {:induction false} InvAfter<T>(s: State<T>, actions: seq<Action<T>>)
    requires Inv(s)
    ensures Inv(After(s, actions))
    decreases |actions|
  {
    hide Inv, Next;
    if actions != [] {
      InvBounds(s);
      InvStep(s, actions[0]);
      InvAfter(Next(s, actions[0]), actions[1..]);
    }
  }

  lemma InvBounds<T>(s: State<T>)
    requires Inv(s)
    ensures InBounds(s)
  {
  }

  /** In every interleaving the values got are a prefix of the values accepted, and the values in
      between are exactly those unread, at most max - 1 of them. */
  lemma GotIsPrefixOfAccepted<T>(s: State<T>, actions: seq<Action<T>>)
    requires Initial(s)
    ensures var t := After(s, actions);
      t.got <= t.accepted && Unread(t) == t.accepted[|t.got|..] && |Unread(t)| <= |t.buffer| - 1
  {
    InvAfter(s, actions);
    var t := After(s, actions);
    WindowRoom(t.buffer, t.tail, t.head);
  }

  /** In every interleaving, a write leaves all unread slots alone, and never meets a copy at the same slot. */
  lemma NoUnreadOverwritten<T>(s: State<T>, actions: seq<Action<T>>)
    requires Initial(s)
    ensures var t := After(s, actions);
      && Unread(Next(t, WriteSlot)) == Unread(t)
      && (t.producer.Writing? && t.consumer.Copying? ==> t.head != t.tail)
  {
    InvAfter(s, actions);
    var t := After(s, actions);
    if t.producer.Writing? {
      WindowKept(t.buffer, t.tail, t.head, t.producer.x);
    }
    WindowFull(t.buffer, t.tail, t.head);
  }

  /** A call gives up only if the buffer really is full, or empty, at the moment it checks. */
  lemma GivesUpOnlyWhenItMust<T>(s: State<T>, actions: seq<Action<T>>, x: T)
    requires Initial(s)
    ensures var t := After(s, actions);
      && (t.producer.Ready? ==> (Next(t, StartPut(x)) == t <==> |Unread(t)| == |t.buffer| - 1))
      && (t.consumer.Waiting? ==> (Next(t, StartGet) == t <==> Unread(t) == []))
  {
    InvAfter(s, actions);
    var t := After(s, actions);
    WindowFull(t.buffer, t.tail, t.head);
  }
}
