/** What the calls of the two threads deliver, read off the actions and the checks that pass
    (sdr/rtp_sdr_rbuf.c, try_put and get). */
module SpscCalls {
  import opened RingBuffer
  import opened SpscRing

  /** How far a call is: its check has passed, or it has also written or copied the slot. */
  datatype Call<T> = Idle | Checked(x: T) | Acted(x: T)

  // ---------- the log of the calls ----------

  ghost predicate PutBegins<T>(s: State<T>, call: Call<T>, a: Action<T>)
    requires InBounds(s)
  {
    a.StartPut? && call.Idle? && |Unread(s)| < |s.buffer| - 1
  }

  ghost predicate GetBegins<T>(s: State<T>, call: Call<T>, a: Action<T>)
    requires InBounds(s)
  {
    a.StartGet? && call.Idle? && Unread(s) != []
  }

  /** The producer's call after an action: begun if there is room, then the slot, then the end. */
  ghost function PutCall<T>(s: State<T>, call: Call<T>, a: Action<T>): Call<T>
    requires InBounds(s)
  {
    if PutBegins(s, call, a) then Checked(a.x)
    else if a.WriteSlot? && call.Checked? then Acted(call.x)
    else if a.PublishHead? && call.Acted? then Idle
    else call
  }

  /** The consumer's call after an action: begun for the oldest unread item, then the slot, then the end. */
  ghost function GetCall<T>(s: State<T>, call: Call<T>, a: Action<T>): Call<T>
    requires InBounds(s)
  {
    if GetBegins(s, call, a) then Checked(Unread(s)[0])
    else if a.CopySlot? && call.Checked? then Acted(call.x)
    else if a.PublishTail? && call.Acted? then Idle
    else call
  }

  /** The items of the try_put calls that begin during a run. */
  ghost function PutsBegun<T>(s: State<T>, call: Call<T>, actions: seq<Action<T>>): seq<T>
    requires InBounds(s)
    decreases |actions|
  {
    if actions == [] then []
    else
      var a := actions[0];
      (if PutBegins(s, call, a) then [a.x] else []) + PutsBegun(Next(s, a), PutCall(s, call, a), actions[1..])
  }

  /** The items of the try_put calls that end during a run. */
  ghost function PutsEnded<T>(s: State<T>, call: Call<T>, actions: seq<Action<T>>): seq<T>
    requires InBounds(s)
    decreases |actions|
  {
    if actions == [] then []
    else
      var a := actions[0];
      (if a.PublishHead? && call.Acted? then [call.x] else []) +
      PutsEnded(Next(s, a), PutCall(s, call, a), actions[1..])
  }

  /** The items of the get calls that end during a run, each the oldest unread when its call began. */
  ghost function GetsEnded<T>(s: State<T>, call: Call<T>, actions: seq<Action<T>>): seq<T>
    requires InBounds(s)
    decreases |actions|
  {
    if actions == [] then []
    else
      var a := actions[0];
      (if a.PublishTail? && call.Acted? then [call.x] else []) +
      GetsEnded(Next(s, a), GetCall(s, call, a), actions[1..])
  }

  ghost function ProducerCall<T>(s: State<T>): Call<T> {
    match s.producer
    case Ready => Idle
    case Writing(x) => Checked(x)
    case Publishing(x) => Acted(x)
  }

  ghost function ConsumerCall<T>(s: State<T>): Call<T>
    requires InBounds(s) && (s.consumer.Copying? ==> Unread(s) != [])
  {
    match s.consumer
    case Waiting => Idle
    case Copying => Checked(Unread(s)[0])
    case Releasing(v) => Acted(v)
  }

  function Pending<T>(call: Call<T>): seq<T> {
    if call.Idle? then [] else [call.x]
  }

  lemma CallStep<T>(s: State<T>, a: Action<T>)
    requires Inv(s)
    ensures var t, put, get := Next(s, a), ProducerCall(s), ConsumerCall(s);
      && Inv(t) && ProducerCall(t) == PutCall(s, put, a) && ConsumerCall(t) == GetCall(s, get, a)
      && t.accepted == s.accepted + (if a.PublishHead? && put.Acted? then [put.x] else [])
      && t.got == s.got + (if a.PublishTail? && get.Acted? then [get.x] else [])
  {
    InvStep(s, a);
    WindowFull(s.buffer, s.tail, s.head);
    WindowRoom(s.buffer, s.tail, s.head);
    hide Window;
    var t := Next(s, a);
    assert Unread(t) == t.accepted[|t.got|..];
    assert Unread(s) == s.accepted[|s.got|..];
  }

  /** In every interleaving, accepted holds exactly the items of the try_put calls that have ended, and got those
      of the get calls that have ended. */
  lemma {:induction false} CallsLogged<T>(s: State<T>, actions: seq<Action<T>>)
    requires Inv(s)
    ensures var t := After(s, actions);
      && Inv(t)
      && t.accepted == s.accepted + PutsEnded(s, ProducerCall(s), actions)
      && t.got == s.got + GetsEnded(s, ConsumerCall(s), actions)
    decreases |actions|
  {
    hide Inv, Next, Unread, PutCall, GetCall, ProducerCall, ConsumerCall;
    InvHere(s);
    if actions != [] {
      CallStep(s, actions[0]);
      CallsLogged(Next(s, actions[0]), actions[1..]);
    }
  }

  lemma PendingStep<T>(s: State<T>, call: Call<T>, a: Action<T>)
    requires InBounds(s)
    ensures (if a.PublishHead? && call.Acted? then [call.x] else []) + Pending(PutCall(s, call, a)) ==
      Pending(call) + (if PutBegins(s, call, a) then [a.x] else [])
  {
    hide Unread;
  }

  /** The items of the try_put calls that have begun are those accepted and the one pending. */
  lemma {:induction false} BegunOrPending<T>(s: State<T>, actions: seq<Action<T>>)
    requires Inv(s)
    ensures var t := After(s, actions);
      t.accepted + Pending(ProducerCall(t)) ==
        s.accepted + Pending(ProducerCall(s)) + PutsBegun(s, ProducerCall(s), actions)
    decreases |actions|
  {
    hide Inv, Next, Unread, PutCall, GetCall, ProducerCall, ConsumerCall, Pending;
    InvHere(s);
    if actions != [] {
      CallStep(s, actions[0]);
      PendingStep(s, ProducerCall(s), actions[0]);
      BegunOrPending(Next(s, actions[0]), actions[1..]);
      var t, a, call := Next(s, actions[0]), actions[0], ProducerCall(s);
      Rejoin(s.accepted, if a.PublishHead? && call.Acted? then [call.x] else [], Pending(ProducerCall(t)),
             Pending(call), if PutBegins(s, call, a) then [a.x] else [], PutsBegun(t, ProducerCall(t), actions[1..]));
    }
  }

  lemma Rejoin<T>(done: seq<T>, ended: seq<T>, after: seq<T>, before: seq<T>, begun: seq<T>, rest: seq<T>)
    requires ended + after == before + begun
    ensures done + ended + after + rest == done + before + (begun + rest)
  {
    assert done + ended + after == done + (ended + after);
  }

  lemma InvHere<T>(s: State<T>)
    requires Inv(s)
    ensures InBounds(s) && (s.consumer.Copying? ==> Unread(s) != [])
  {
  }

  /** From the start, whatever the interleaving. */
  lemma CallsFromStart<T>(s: State<T>, actions: seq<Action<T>>)
    requires Initial(s)
    ensures After(s, actions).accepted == PutsEnded(s, Idle, actions)
    ensures After(s, actions).got == GetsEnded(s, Idle, actions)
  {
    CallsLogged(s, actions);
  }

  // ---------- a call runs to its end ----------

  predicate OfConsumer<T>(a: Action<T>) {
    a.StartGet? || a.CopySlot? || a.PublishTail?
  }

  predicate OfProducer<T>(a: Action<T>) {
    a.StartPut? || a.WriteSlot? || a.PublishHead?
  }

  lemma {:induction false} AfterConcat<T>(s: State<T>, first: seq<Action<T>>, second: seq<Action<T>>)
    requires InBounds(s)
    ensures After(s, first + second) == After(After(s, first), second)
    decreases |first|
  {
    hide Next;
    if first == [] {
      assert first + second == second;
    } else {
      assert (first + second)[1..] == first[1..] + second;
      AfterConcat(Next(s, first[0]), first[1..], second);
    }
  }

  lemma AfterOne<T>(s: State<T>, a: Action<T>)
    requires InBounds(s)
    ensures After(s, [a]) == Next(s, a)
  {
  }

  /** Steps of the consumer leave the producer's call alone. */
  lemma {:induction false} ConsumerSteps<T>(s: State<T>, actions: seq<Action<T>>)
    requires Inv(s) && forall a :: a in actions ==> OfConsumer(a)
    ensures var t := After(s, actions);
      Inv(t) && ProducerCall(t) == ProducerCall(s) && t.accepted == s.accepted
    decreases |actions|
  {
    hide Inv, Next, Unread, ProducerCall, ConsumerCall;
    InvHere(s);
    if actions != [] {
      CallStep(s, actions[0]);
      assert OfConsumer(actions[0]);
      ConsumerSteps(Next(s, actions[0]), actions[1..]);
    }
  }

  /** Steps of the producer leave the consumer's call alone. */
  lemma {:induction false} ProducerSteps<T>(s: State<T>, actions: seq<Action<T>>)
    requires Inv(s) && forall a :: a in actions ==> OfProducer(a)
    ensures InBounds(s) && (s.consumer.Copying? ==> Unread(s) != [])
    ensures var t := After(s, actions);
      Inv(t) && (t.consumer.Copying? ==> Unread(t) != []) && ConsumerCall(t) == ConsumerCall(s) && t.got == s.got
    decreases |actions|
  {
    hide Inv, Next, Unread, ProducerCall, ConsumerCall;
    InvHere(s);
    if actions != [] {
      CallStep(s, actions[0]);
      assert OfProducer(actions[0]);
      ProducerSteps(Next(s, actions[0]), actions[1..]);
    }
  }

  /** An action, then actions of the other thread. */
  lemma ThenConsumer<T>(s: State<T>, a: Action<T>, actions: seq<Action<T>>)
    requires Inv(s) && forall c :: c in actions ==> OfConsumer(c)
    ensures var t := After(s, [a] + actions);
      && InBounds(s) && Inv(t) && ProducerCall(t) == PutCall(s, ProducerCall(s), a)
      && t.accepted == s.accepted + (if a.PublishHead? && ProducerCall(s).Acted? then [ProducerCall(s).x] else [])
  {
    hide Inv, Next, Unread, ProducerCall, ConsumerCall, PutCall;
    InvHere(s);
    CallStep(s, a);
    AfterOne(s, a);
    AfterConcat(s, [a], actions);
    ConsumerSteps(Next(s, a), actions);
  }

  lemma ThenProducer<T>(s: State<T>, a: Action<T>, actions: seq<Action<T>>)
    requires Inv(s) && forall p :: p in actions ==> OfProducer(p)
    ensures InBounds(s) && (s.consumer.Copying? ==> Unread(s) != [])
    ensures var t := After(s, [a] + actions);
      && Inv(t) && (t.consumer.Copying? ==> Unread(t) != []) && ConsumerCall(t) == GetCall(s, ConsumerCall(s), a)
      && t.got == s.got + (if a.PublishTail? && ConsumerCall(s).Acted? then [ConsumerCall(s).x] else [])
  {
    hide Inv, Next, Unread, ProducerCall, ConsumerCall, GetCall;
    InvHere(s);
    CallStep(s, a);
    AfterOne(s, a);
    AfterConcat(s, [a], actions);
    ProducerSteps(Next(s, a), actions);
  }

  /** From every reachable state with room, a try_put that runs to its end adds its item to those accepted,
      whatever the consumer does in between. */
  lemma PutDelivers<T>(s: State<T>, x: T, first: seq<Action<T>>, second: seq<Action<T>>)
    requires Inv(s) && s.producer.Ready? && |Unread(s)| < |s.buffer| - 1
    requires forall a :: a in first + second ==> OfConsumer(a)
    ensures var t := After(s, ([StartPut(x)] + first) + ([WriteSlot] + second) + [PublishHead]);
      t.producer.Ready? && t.accepted == s.accepted + [x]
  {
    hide Inv, Next, Unread;
    assert forall a :: a in first ==> a in first + second;
    assert forall a :: a in second ==> a in first + second;
    ThenConsumer(s, StartPut(x), first);
    var t := After(s, [StartPut(x)] + first);
    ThenConsumer(t, WriteSlot, second);
    var u := After(t, [WriteSlot] + second);
    ThenConsumer(u, PublishHead, []);
    assert [PublishHead] + [] == [Action<T>.PublishHead];
    AfterConcat(s, [StartPut(x)] + first, [WriteSlot] + second);
    AfterConcat(s, ([StartPut(x)] + first) + ([WriteSlot] + second), [PublishHead]);
  }

  /** From every reachable state with an item unread, a get that runs to its end returns the oldest one,
      whatever the producer does in between. */
  lemma GetDelivers<T>(s: State<T>, first: seq<Action<T>>, second: seq<Action<T>>)
    requires Inv(s) && s.consumer.Waiting? && Unread(s) != []
    requires forall a :: a in first + second ==> OfProducer(a)
    ensures var t := After(s, ([StartGet] + first) + ([CopySlot] + second) + [PublishTail]);
      t.consumer.Waiting? && t.got == s.got + [Unread(s)[0]]
  {
    hide Inv, Next, Unread;
    assert forall a :: a in first ==> a in first + second;
    assert forall a :: a in second ==> a in first + second;
    ThenProducer(s, StartGet, first);
    var t := After(s, [StartGet] + first);
    ThenProducer(t, CopySlot, second);
    var u := After(t, [CopySlot] + second);
    ThenProducer(u, PublishTail, []);
    assert [PublishTail] + [] == [Action<T>.PublishTail];
    AfterConcat(s, [StartGet] + first, [CopySlot] + second);
    AfterConcat(s, ([StartGet] + first) + ([CopySlot] + second), [PublishTail]);
  }

  // ---------- everything arrives ----------

  /** n calls of get, one after the other. */
  function Gets<T>(n: nat): seq<Action<T>> {
    if n == 0 then [] else [StartGet, CopySlot, PublishTail] + Gets(n - 1)
  }

  /** One get with no step of the producer in between. */
  lemma OneGet<T>(s: State<T>)
    requires Inv(s) && s.consumer.Waiting?
    ensures var t := After(s, [StartGet, CopySlot, PublishTail]);
      && Inv(t) && t.consumer.Waiting? && t.accepted == s.accepted && |t.buffer| == |s.buffer|
      && Unread(t) == if Unread(s) == [] then [] else Unread(s)[1..]
  {
    var t := Next(s, StartGet);
    var u := Next(t, CopySlot);
    var v := Next(u, PublishTail);
    InvStep(s, StartGet);
    InvStep(t, CopySlot);
    InvStep(u, PublishTail);
    WindowFull(s.buffer, s.tail, s.head);
    hide Window;
    assert After(s, [StartGet, CopySlot, PublishTail]) == v by {
      AfterOne(u, PublishTail);
      assert [StartGet, CopySlot, PublishTail][1..] == [CopySlot, Action<T>.PublishTail];
      assert [CopySlot, PublishTail][1..] == [Action<T>.PublishTail];
    }
    assert v.accepted == v.got + Unread(v) && s.accepted == s.got + Unread(s);
    assert Unread(v) == v.accepted[|v.got|..];
    assert Unread(s) == s.accepted[|s.got|..];
  }

  /** From every reachable state, as many gets as there are items unread empty the buffer. */
  lemma {:induction false} GetsDrain<T>(s: State<T>, n: nat)
    requires Inv(s) && s.consumer.Waiting? && |Unread(s)| <= n
    ensures var t := After(s, Gets(n));
      Unread(t) == [] && t.got == t.accepted == s.accepted
    decreases n
  {
    hide Unread, Next;
    InvHere(s);
    if n > 0 {
      OneGet(s);
      AfterConcat(s, [StartGet, CopySlot, PublishTail], Gets(n - 1));
      GetsDrain(After(s, [StartGet, CopySlot, PublishTail]), n - 1);
    }
  }

  /** The steps that end whatever calls are under way. */
  function Finish<T>(): seq<Action<T>> {
    [WriteSlot, PublishHead, CopySlot, PublishTail]
  }

  lemma FinishEnds<T>(s: State<T>)
    requires Inv(s)
    ensures var t := After(s, Finish());
      && Inv(t) && t.consumer.Waiting? && |t.buffer| == |s.buffer|
      && t.accepted == s.accepted + Pending(ProducerCall(s))
  {
    hide Window;
    var t := Next(s, WriteSlot);
    var u := Next(t, PublishHead);
    var v := Next(u, CopySlot);
    var w := Next(v, PublishTail);
    InvStep(s, WriteSlot);
    InvStep(t, PublishHead);
    InvStep(u, CopySlot);
    InvStep(v, PublishTail);
    assert Finish<T>()[1..] == [PublishHead, CopySlot, PublishTail];
    assert Finish<T>()[1..][1..] == [CopySlot, PublishTail];
    assert Finish<T>()[1..][1..][1..] == [PublishTail];
    AfterOne(v, PublishTail);
  }

  lemma {:induction false} SizeKept<T>(s: State<T>, actions: seq<Action<T>>)
    requires InBounds(s)
    ensures |After(s, actions).buffer| == |s.buffer|
    decreases |actions|
  {
    if actions != [] {
      SizeKept(Next(s, actions[0]), actions[1..]);
    }
  }

  /** Whatever the interleaving so far, once the calls under way have ended and get has been called max - 1 times,
      the values got are exactly those of all try_put calls that passed their check, in that order. */
  lemma AllDelivered<T>(s: State<T>, actions: seq<Action<T>>, n: nat)
    requires Initial(s) && n >= |s.buffer| - 1
    ensures After(s, actions + Finish() + Gets(n)).got == PutsBegun(s, Idle, actions)
  {
    hide Next, Unread, PutsBegun, PutsEnded, GetsEnded, Finish;
    StartInv(s);
    InvHere(s);
    CallsLogged(s, actions);
    BegunOrPending(s, actions);
    SizeKept(s, actions);
    var t := After(s, actions);
    FinishEnds(t);
    var u := After(t, Finish());
    HowMany(u);
    GetsDrain(u, n);
    AfterConcat(s, actions, Finish());
    AfterConcat(s, actions + Finish(), Gets(n));
  }

  lemma StartInv<T>(s: State<T>)
    requires Initial(s)
    ensures Inv(s)
  {
  }

  lemma HowMany<T>(s: State<T>)
    requires Inv(s)
    ensures InBounds(s) && |Unread(s)| <= |s.buffer| - 1
  {
    WindowRoom(s.buffer, s.tail, s.head);
  }
}
