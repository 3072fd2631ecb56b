/** Many callers sharing one connection to the store: request ids, registered waiters, and the processor that
    writes requests out and hands replies back. A call or unwatch is named by its serial number, the count of
    ids issued before it; on the wire it only carries the serial modulo 2^32. */
module Multiplexer {
  import opened Results

  const ID_COUNT: nat := 0x1_0000_0000
  const XSD_WATCH_EVENT: nat := 15

  function RequestId(serial: nat): nat {
    serial % ID_COUNT
  }

  datatype Call =
    | Issued          // has an id, no waiter registered yet
    | Registered      // waiter in the reply map, request not queued yet
    | Waiting         // request queued or further along
    | Refused         // the send queue was full
    | Cancelled       // the caller went away
    | Got(origin: nat)  // received the answer to the request with that serial

  /** A message from the server: the answer to a request (its serial is not on the wire), or a watch event. */
  datatype Inbound =
    | Answer(serial: nat, typ: nat, req: nat, tx: nat)
    | Notice(typ: nat, req: nat, tx: nat)

  datatype Bus = Bus(
    next: nat,                  // ids issued so far
    calls: map<nat, Call>,
    unwatches: set<nat>,
    replies: map<nat, nat>,     // request id -> serial of the registered waiter
    sendQueue: seq<nat>,
    atServer: set<nat>,
    inbound: seq<Inbound>)

  /** The processor's test for a watch event. */
  predicate IsWatchEvent(m: Inbound) {
    m.typ == XSD_WATCH_EVENT && m.req == 0 && m.tx == 0
  }

  /** A waiter that is still there takes what it is handed. */
  function Deliver(calls: map<nat, Call>, waiter: nat, origin: nat): map<nat, Call> {
    if waiter in calls && (calls[waiter].Registered? || calls[waiter].Waiting?)
    then calls[waiter := Got(origin)]
    else calls
  }

  /** The bus after its first message has been handled. */
  function Dispatched(s: Bus): Bus
    requires |s.inbound| > 0
  {
    var m, rest := s.inbound[0], s.inbound[1..];
    if IsWatchEvent(m) || m.req !in s.replies then s.(inbound := rest)
    else s.(inbound := rest, replies := s.replies - {m.req},
            calls := Deliver(s.calls, s.replies[m.req], if m.Answer? then m.serial else s.next))
  }

  datatype Event =
    | TakeId
    | Register(n: nat)
    | Send(n: nat, accepted: bool)
    | Cancel(n: nat)
    | WriteOut
    | WriteUnwatch
    | ServerAnswers(n: nat, typ: nat, tx: nat)
    | ServerNotifies
    | Dispatch

  ghost predicate Step(s: Bus, e: Event, s': Bus) {
    match e
    case TakeId =>
      s' == s.(next := s.next + 1, calls := s.calls[s.next := Issued])
    case Register(n) =>
      && n in s.calls && s.calls[n].Issued?
      && s' == s.(calls := s.calls[n := Registered], replies := s.replies[RequestId(n) := n])
    case Send(n, accepted) =>
      && n in s.calls && s.calls[n].Registered?
      && s' == if accepted then s.(calls := s.calls[n := Waiting], sendQueue := s.sendQueue + [n])
               else s.(calls := s.calls[n := Refused])
    case Cancel(n) =>
      && n in s.calls && (s.calls[n].Issued? || s.calls[n].Registered? || s.calls[n].Waiting?)
      && s' == s.(calls := s.calls[n := Cancelled])
    case WriteOut =>
      && |s.sendQueue| > 0
      && s' == s.(sendQueue := s.sendQueue[1..], atServer := s.atServer + {s.sendQueue[0]})
    case WriteUnwatch =>
      s' == s.(next := s.next + 1, unwatches := s.unwatches + {s.next}, atServer := s.atServer + {s.next})
    case ServerAnswers(n, typ, tx) =>
      // the server answers a request once, under its id, and never with the type of a watch event
      && n in s.atServer && typ != XSD_WATCH_EVENT
      && s' == s.(atServer := s.atServer - {n}, inbound := s.inbound + [Answer(n, typ, RequestId(n), tx)])
    case ServerNotifies =>
      s' == s.(inbound := s.inbound + [Notice(XSD_WATCH_EVENT, 0, 0)])
    case Dispatch =>
      |s.inbound| > 0 && s' == Dispatched(s)
  }

  /** Request n is queued, at the server, or answered but not dispatched. */
  predicate Queued(s: Bus, n: nat) {
    exists i :: 0 <= i < |s.sendQueue| && s.sendQueue[i] == n
  }

  predicate Answered(s: Bus, n: nat) {
    exists i :: 0 <= i < |s.inbound| && s.inbound[i].Answer? && s.inbound[i].serial == n
  }

  predicate Underway(s: Bus, n: nat) {
    Queued(s, n) || n in s.atServer || Answered(s, n)
  }

  /** Nothing issued long ago is unfinished: at most 2^32 ids have been given out since any request that is on
      its way, or about to be. */
  ghost predicate Window(s: Bus) {
    forall n: nat :: Underway(s, n) || (n in s.calls && (s.calls[n].Issued? || s.calls[n].Registered?)) ==>
      s.next <= n + ID_COUNT
  }

  // ----- the invariant -----

  ghost predicate Places(s: Bus) {
    && (forall n :: n in s.calls ==> n < s.next && n !in s.unwatches)
    && (forall n :: n in s.unwatches ==> n < s.next)
    && (forall i :: 0 <= i < |s.sendQueue| ==> s.sendQueue[i] in s.calls && s.sendQueue[i] !in s.atServer)
    && (forall i, j :: 0 <= i < j < |s.sendQueue| ==> s.sendQueue[i] != s.sendQueue[j])
    && (forall n :: n in s.atServer ==> n in s.calls || n in s.unwatches)
    && (forall i :: 0 <= i < |s.inbound| ==> InboundOk(s, s.inbound[i]))
    && (forall i, j :: 0 <= i < j < |s.inbound| && s.inbound[i].Answer? && s.inbound[j].Answer? ==>
          s.inbound[i].serial != s.inbound[j].serial)
  }

  predicate InboundOk(s: Bus, m: Inbound) {
    match m
    case Answer(n, typ, req, _) =>
      && typ != XSD_WATCH_EVENT && req == RequestId(n) && (n in s.calls || n in s.unwatches)
      && n !in s.atServer && !Queued(s, n)
    case Notice(_, _, _) => IsWatchEvent(m)
  }

  /** A call's state agrees with where its request is and with the reply map. */
  ghost predicate CallOk(s: Bus, n: nat)
    requires n in s.calls
  {
    match s.calls[n]
    case Issued => !Underway(s, n)
    case Registered => !Underway(s, n) && RequestId(n) in s.replies && s.replies[RequestId(n)] == n
    case Waiting => Underway(s, n) && RequestId(n) in s.replies && s.replies[RequestId(n)] == n
    case Refused => !Underway(s, n)
    case Cancelled => Underway(s, n) ==> RequestId(n) in s.replies && s.replies[RequestId(n)] == n
    case Got(origin) => origin == n && !Underway(s, n)
  }

  ghost predicate Inv(s: Bus) {
    && Places(s)
    && (forall r :: r in s.replies ==> s.replies[r] in s.calls && RequestId(s.replies[r]) == r)
    && (forall n :: n in s.calls ==> CallOk(s, n))
  }

  ghost predicate Init(s: Bus) {
    s == Bus(0, map[], {}, map[], [], {}, [])
  }

  /** Two ids that agree on the wire are at least 2^32 apart. */
  lemma SameIdFarApart(m: nat, n: nat)
    requires m < n && RequestId(m) == RequestId(n)
    ensures n >= m + ID_COUNT
  {
  }

  lemma InitInv(s: Bus)
    requires Init(s)
    ensures Inv(s)
  {
  }

  /** Requests that are unfinished at the same time have different ids on the wire. */
  lemma LiveIdsDiffer(s: Bus, m: nat, n: nat)
    requires Inv(s) && Window(s) && m != n
    requires m < s.next && n < s.next
    requires Underway(s, m) || (m in s.calls && (s.calls[m].Issued? || s.calls[m].Registered?))
    requires Underway(s, n) || (n in s.calls && (s.calls[n].Issued? || s.calls[n].Registered?))
    ensures RequestId(m) != RequestId(n)
  {
    hide Inv, Underway;
    if RequestId(m) == RequestId(n) {
      if m < n {
        SameIdFarApart(m, n);
      } else {
        SameIdFarApart(n, m);
      }
    }
  }

  lemma TakeIdStep(s: Bus, s': Bus)
    requires Inv(s) && Step(s, TakeId, s')
    ensures Inv(s')
  {
    var n := s.next;
    assert !Underway(s, n);
    forall m | m in s'.calls
      ensures CallOk(s', m)
    {
      assert Underway(s', m) == Underway(s, m);
      if m != n {
        assert CallOk(s, m);
      }
    }
    forall i | 0 <= i < |s'.inbound|
      ensures InboundOk(s', s'.inbound[i])
    {
      assert InboundOk(s, s.inbound[i]);
    }
  }

  lemma RegisterStep(s: Bus, n: nat, s': Bus)
    requires Inv(s) && Window(s) && Step(s, Register(n), s')
    ensures Inv(s')
  {
    forall m | m in s'.calls
      ensures CallOk(s', m)
    {
      assert Underway(s', m) == Underway(s, m);
      assert CallOk(s, m);
      if m != n && (s.calls[m].Registered? || Underway(s, m)) {
        LiveIdsDiffer(s, m, n);
      }
    }
    forall i | 0 <= i < |s'.inbound|
      ensures InboundOk(s', s'.inbound[i])
    {
      assert InboundOk(s, s.inbound[i]);
    }
  }

  lemma SendStep(s: Bus, n: nat, accepted: bool, s': Bus)
    requires Inv(s) && Step(s, Send(n, accepted), s')
    ensures Inv(s')
  {
    assert CallOk(s, n);
    forall m
      ensures Queued(s', m) <==> Queued(s, m) || (accepted && m == n)
      ensures Answered(s', m) == Answered(s, m)
    {
      if accepted {
        assert s'.sendQueue[|s.sendQueue|] == n;
        if Queued(s, m) {
          var i :| 0 <= i < |s.sendQueue| && s.sendQueue[i] == m;
          assert s'.sendQueue[i] == m;
        }
      }
    }
    forall m | m in s'.calls
      ensures CallOk(s', m)
    {
      assert CallOk(s, m);
    }
    forall i | 0 <= i < |s'.inbound|
      ensures InboundOk(s', s'.inbound[i])
    {
      assert InboundOk(s, s.inbound[i]);
    }
  }

  lemma CancelStep(s: Bus, n: nat, s': Bus)
    requires Inv(s) && Step(s, Cancel(n), s')
    ensures Inv(s')
  {
    forall m | m in s'.calls
      ensures CallOk(s', m)
    {
      assert Underway(s', m) == Underway(s, m);
      assert CallOk(s, m);
    }
    forall i | 0 <= i < |s'.inbound|
      ensures InboundOk(s', s'.inbound[i])
    {
      assert InboundOk(s, s.inbound[i]);
    }
  }

  lemma WriteOutStep(s: Bus, s': Bus)
    requires Inv(s) && Step(s, WriteOut, s')
    ensures Inv(s')
  {
    var n := s.sendQueue[0];
    forall m
      ensures Queued(s', m) <==> Queued(s, m) && m != n
      ensures Answered(s', m) == Answered(s, m)
    {
      if Queued(s, m) && m != n {
        var i :| 0 <= i < |s.sendQueue| && s.sendQueue[i] == m;
        assert s'.sendQueue[i - 1] == m;
      }
    }
    assert Queued(s, n);
    forall m | m in s'.calls
      ensures CallOk(s', m)
    {
      assert CallOk(s, m);
    }
    forall i | 0 <= i < |s'.inbound|
      ensures InboundOk(s', s'.inbound[i])
    {
      assert InboundOk(s, s.inbound[i]);
    }
  }

  lemma WriteUnwatchStep(s: Bus, s': Bus)
    requires Inv(s) && Step(s, WriteUnwatch, s')
    ensures Inv(s')
  {
    assert !Underway(s, s.next);
    forall m | m in s'.calls
      ensures CallOk(s', m)
    {
      assert Underway(s', m) == Underway(s, m);
      assert CallOk(s, m);
    }
    forall i | 0 <= i < |s'.inbound|
      ensures InboundOk(s', s'.inbound[i])
    {
      assert InboundOk(s, s.inbound[i]);
    }
  }

  lemma AnswerStep(s: Bus, n: nat, typ: nat, tx: nat, s': Bus)
    requires Inv(s) && Step(s, ServerAnswers(n, typ, tx), s')
    ensures Inv(s')
  {
    forall m
      ensures Answered(s', m) <==> Answered(s, m) || m == n
    {
      assert s'.inbound[|s.inbound|] == Answer(n, typ, RequestId(n), tx);
      if Answered(s, m) {
        var i :| 0 <= i < |s.inbound| && s.inbound[i].Answer? && s.inbound[i].serial == m;
        assert s'.inbound[i] == s.inbound[i];
      }
    }
    forall m | m in s'.calls
      ensures CallOk(s', m)
    {
      assert CallOk(s, m);
      assert Queued(s', m) == Queued(s, m);
    }
    forall i | 0 <= i < |s'.inbound|
      ensures InboundOk(s', s'.inbound[i])
    {
      if i < |s.inbound| {
        assert InboundOk(s, s.inbound[i]);
      }
    }
  }

  lemma NotifyStep(s: Bus, s': Bus)
    requires Inv(s) && Step(s, ServerNotifies, s')
    ensures Inv(s')
  {
    forall m
      ensures Answered(s', m) == Answered(s, m)
    {
      if Answered(s, m) {
        var i :| 0 <= i < |s.inbound| && s.inbound[i].Answer? && s.inbound[i].serial == m;
        assert s'.inbound[i] == s.inbound[i];
      }
    }
    forall m | m in s'.calls
      ensures CallOk(s', m)
    {
      assert CallOk(s, m);
      assert Queued(s', m) == Queued(s, m);
    }
    forall i | 0 <= i < |s'.inbound|
      ensures InboundOk(s', s'.inbound[i])
    {
      if i < |s.inbound| {
        assert InboundOk(s, s.inbound[i]);
      }
    }
  }

  /** What dispatching the first inbound message does: the answer to a call reaches that call if it still
      waits; any other message reaches nobody. */
  lemma DispatchDelivers(s: Bus, s': Bus)
    requires Inv(s) && Window(s) && Step(s, Dispatch, s')
    ensures var m := s.inbound[0];
            && (m.Answer? && m.serial in s.calls ==>
                  && s.calls[m.serial] in {Waiting, Cancelled}
                  && s'.calls == if s.calls[m.serial].Waiting? then s.calls[m.serial := Got(m.serial)] else s.calls)
            && (!m.Answer? || m.serial !in s.calls ==> s'.calls == s.calls)
    ensures forall n :: n in s'.calls && Underway(s, n) && !(s.inbound[0].Answer? && s.inbound[0].serial == n) ==>
              (RequestId(n) in s'.replies <==> RequestId(n) in s.replies)
              && (RequestId(n) in s'.replies ==> s'.replies[RequestId(n)] == s.replies[RequestId(n)])
    ensures forall n :: n in s'.calls && s.calls[n].Registered? ==>
              RequestId(n) in s'.replies && s'.replies[RequestId(n)] == s.replies[RequestId(n)]
  {
    var m := s.inbound[0];
    assert InboundOk(s, m);
    if m.Answer? {
      var n := m.serial;
      assert Answered(s, n);
      forall x | x in s.calls && x != n && (Underway(s, x) || s.calls[x].Registered?)
        ensures RequestId(x) != m.req
      {
        LiveIdsDiffer(s, x, n);
      }
      if n in s.calls {
        assert CallOk(s, n);
      } else if m.req in s.replies {
        assert CallOk(s, s.replies[m.req]);
      }
    }
  }

  lemma DispatchStep(s: Bus, s': Bus)
    requires Inv(s) && Window(s) && Step(s, Dispatch, s')
    ensures Inv(s')
  {
    DispatchDelivers(s, s');
    var first := s.inbound[0];
    forall m
      ensures Answered(s', m) <==> Answered(s, m) && !(first.Answer? && first.serial == m)
      ensures Queued(s', m) == Queued(s, m)
    {
      if Answered(s, m) && !(first.Answer? && first.serial == m) {
        var i :| 0 <= i < |s.inbound| && s.inbound[i].Answer? && s.inbound[i].serial == m;
        assert s'.inbound[i - 1] == s.inbound[i];
      }
    }
    assert InboundOk(s, first);
    forall m | m in s'.calls
      ensures CallOk(s', m)
    {
      assert CallOk(s, m);
    }
    forall i | 0 <= i < |s'.inbound|
      ensures InboundOk(s', s'.inbound[i])
    {
      assert InboundOk(s, s.inbound[i + 1]);
    }
  }

  lemma StepInv(s: Bus, e: Event, s': Bus)
    requires Inv(s) && Window(s) && Step(s, e, s')
    ensures Inv(s')
  {
    hide Inv, Window;
    match e
    case TakeId => TakeIdStep(s, s');
    case Register(n) => RegisterStep(s, n, s');
    case Send(n, accepted) => SendStep(s, n, accepted, s');
    case Cancel(n) => CancelStep(s, n, s');
    case WriteOut => WriteOutStep(s, s');
    case WriteUnwatch => WriteUnwatchStep(s, s');
    case ServerAnswers(n, typ, tx) => AnswerStep(s, n, typ, tx, s');
    case ServerNotifies => NotifyStep(s, s');
    case Dispatch => DispatchStep(s, s');
  }

  // ----- whole runs -----

  /** A run in which no request is overtaken by 2^32 later ids. */
  ghost predicate Run(states: seq<Bus>, events: seq<Event>) {
    && |states| == |events| + 1 && Init(states[0])
    && (forall i :: 0 <= i < |events| ==> Step(states[i], events[i], states[i + 1]))
    && (forall i :: 0 <= i < |states| ==> Window(states[i]))
  }

  lemma {:induction false} RunInv(states: seq<Bus>, events: seq<Event>, n: nat)
    requires Run(states, events) && n < |states|
    ensures Inv(states[n])
  {
    hide Inv, Init, Step, Window;
    if n == 0 {
      InitInv(states[0]);
    } else {
      RunInv(states, events, n - 1);
      StepInv(states[n - 1], events[n - 1], states[n]);
    }
  }

  /** A caller only ever receives the answer to its own request, and one that still waits has its request on
      the way and its waiter registered. */
  lemma CallersGetTheirOwn(states: seq<Bus>, events: seq<Event>, n: nat, c: nat)
    requires Run(states, events) && n < |states| && c in states[n].calls
    ensures states[n].calls[c].Got? ==> states[n].calls[c].origin == c
    ensures states[n].calls[c].Waiting? ==>
              && Underway(states[n], c)
              && RequestId(c) in states[n].replies && states[n].replies[RequestId(c)] == c
  {
    RunInv(states, events, n);
    hide Step, Window;
    assert CallOk(states[n], c);
  }

  /** The answer to a call finds its waiter registered; watch events and answers to unwatches change no call. */
  lemma DispatchReachesOwner(states: seq<Bus>, events: seq<Event>, n: nat)
    requires Run(states, events) && n < |events| && events[n] == Dispatch
    ensures |states[n].inbound| > 0
    ensures var m := states[n].inbound[0];
            && (m.Answer? && m.serial in states[n].calls ==>
                  && RequestId(m.serial) in states[n].replies && states[n].replies[RequestId(m.serial)] == m.serial
                  && (states[n].calls[m.serial].Waiting? ==>
                        states[n + 1].calls == states[n].calls[m.serial := Got(m.serial)])
                  && (!states[n].calls[m.serial].Waiting? ==> states[n + 1].calls == states[n].calls))
            && (m.Notice? || m.serial !in states[n].calls ==> states[n + 1].calls == states[n].calls)
  {
    RunInv(states, events, n);
    assert Step(states[n], events[n], states[n + 1]);
    DispatchDelivers(states[n], states[n + 1]);
    var m := states[n].inbound[0];
    if m.Answer? && m.serial in states[n].calls {
      assert Answered(states[n], m.serial);
      assert CallOk(states[n], m.serial);
    }
  }

  lemma GotStays(s: Bus, e: Event, s': Bus, c: nat)
    requires Inv(s) && Step(s, e, s') && c in s.calls && s.calls[c].Got?
    ensures c in s'.calls && s'.calls[c] == s.calls[c]
  {
  }

  /** An answer is received at most once: what a call has got it keeps, and nothing for it is under way. */
  lemma {:induction false} AnsweredOnce(states: seq<Bus>, events: seq<Event>, i: nat, j: nat, c: nat)
    requires Run(states, events) && i <= j < |states|
    requires c in states[i].calls && states[i].calls[c].Got?
    ensures c in states[j].calls && states[j].calls[c] == states[i].calls[c] && !Underway(states[j], c)
    decreases j
  {
    hide Step, Window, Underway, Inv;
    RunInv(states, events, j);
    if i < j {
      AnsweredOnce(states, events, i, j - 1, c);
      RunInv(states, events, j - 1);
      assert Step(states[j - 1], events[j - 1], states[j]);
      GotStays(states[j - 1], events[j - 1], states[j], c);
    }
    GotIsOver(states[j], c);
  }

  lemma GotIsOver(s: Bus, c: nat)
    requires Inv(s) && c in s.calls && s.calls[c].Got?
    ensures !Underway(s, c)
  {
    hide Underway;
    assert CallOk(s, c);
  }

  // ----- the shared objects behind the steps -----

  /** The part of a message that decides where it goes. */
  datatype Received = Received(typ: nat, req: nat, tx: nat)

  /** The channel on which one caller waits for one reply. */
  class OneShot {
    ghost const serial: nat
    var open: bool  // the caller is still there, and has not been answered
    var message: Option<Received>

    constructor (ghost serial: nat)
      ensures this.serial == serial && open && message == None
    {
      this.serial, open, message := serial, true, None;
    }
  }

  /** What the callers and the processor share. Every method is one step of the bus, or several in a row. */
  class Router {
    var nextRequestId: nat
    var replies: map<nat, OneShot>
    var txQueue: seq<nat>       // ids of the requests to write
    var rxQueue: seq<Received>  // messages read and not handled
    ghost var bus: Bus
    ghost var channels: map<nat, OneShot>  // the channel of every call that has registered one, by serial

    ghost predicate Valid()
      reads this, channels.Values
    {
      && nextRequestId == RequestId(bus.next)
      && |txQueue| == |bus.sendQueue| && (forall i :: 0 <= i < |txQueue| ==> txQueue[i] == RequestId(bus.sendQueue[i]))
      && |rxQueue| == |bus.inbound| && (forall i :: 0 <= i < |rxQueue| ==> Carries(rxQueue[i], bus.inbound[i]))
      && replies.Keys == bus.replies.Keys
      && (forall r :: r in replies ==> bus.replies[r] in channels && replies[r] == channels[bus.replies[r]])
      && (forall n :: n in channels ==> ChannelOk(n, channels[n]))
      && (forall n :: n in bus.calls && (bus.calls[n].Registered? || bus.calls[n].Waiting? || bus.calls[n].Got?) ==>
            n in channels)
      && (forall r :: r in replies ==> RequestId(bus.replies[r]) == r)
    }

    /** The channel of call n is open while the call waits, and holds a message, under the call's own id, exactly if
        the call has got its answer. */
    ghost predicate ChannelOk(n: nat, w: OneShot)
      reads this, w
    {
      && w.serial == n && n < bus.next && n in bus.calls && !bus.calls[n].Issued?
      && (w.open <==> bus.calls[n].Registered? || bus.calls[n].Waiting?)
      && (w.message.Some? <==> bus.calls[n].Got?)
      && (w.message.Some? ==> w.message.value.req == RequestId(n))
    }

    constructor ()
      ensures Valid() && Init(bus) && replies == map[] && txQueue == [] && rxQueue == []
    {
      nextRequestId, replies, txQueue, rxQueue := 0, map[], [], [];
      bus := Bus(0, map[], {}, map[], [], {}, []);
      channels := map[];
    }

    method TakeRequestId() returns (req: nat, ghost serial: nat)
      requires Valid()
      modifies this`nextRequestId, this`bus
      ensures Valid() && Step(old(bus), TakeId, bus)
      ensures serial == old(bus).next && req == serial % 0x1_0000_0000
    {
      serial := bus.next;
      req := WrappingIncrement();
      bus := bus.(next := bus.next + 1, calls := bus.calls[serial := Issued]);
      forall n | n in channels && n != serial
        ensures ChannelOk(n, channels[n])
      {
        assert old(ChannelOk(n, channels[n]));
      }
    }

    /** The counter wraps at 2^32, so that it stays the number of ids given out modulo 2^32. */
    method WrappingIncrement() returns (req: nat)
      requires nextRequestId == RequestId(bus.next)
      modifies this`nextRequestId
      ensures req == old(nextRequestId) && nextRequestId == RequestId(bus.next + 1)
    {
      req := nextRequestId;
      nextRequestId := if req + 1 == ID_COUNT then 0 else req + 1;
    }

    /** Put a new channel into the reply map. */
    method Register(req: nat, ghost serial: nat) returns (w: OneShot)
      requires Valid() && serial in bus.calls && bus.calls[serial].Issued? && serial < bus.next
               && req == RequestId(serial)
      modifies this`replies, this`bus, this`channels
      ensures Valid() && Step(old(bus), Event.Register(serial), bus)
      ensures fresh(w) && w.serial == serial && w.open && w.message == None && replies == old(replies)[req := w]
      ensures channels == old(channels)[serial := w]
    {
      w := new OneShot(serial);
      replies := replies[req := w];
      bus := bus.(calls := bus.calls[serial := Registered], replies := bus.replies[req := serial]);
      channels := channels[serial := w];
      forall n | n in channels && n != serial
        ensures ChannelOk(n, channels[n])
      {
        assert old(ChannelOk(n, channels[n]));
      }
    }

    /** Queue the request if there is room; otherwise the caller gives up. */
    method TrySend(req: nat, w: OneShot, room: bool)
      requires Valid() && req == RequestId(w.serial) && w.serial in channels && channels[w.serial] == w
      requires bus.calls[w.serial].Registered?
      modifies this`txQueue, this`bus, w
      ensures Valid() && Step(old(bus), Send(w.serial, room), bus) && w.message == old(w.message) && w.open == room
      ensures txQueue == if room then old(txQueue) + [req] else old(txQueue)
    {
      hide Inv, Window;
      assert ChannelOk(w.serial, w);
      if room {
        txQueue := txQueue + [req];
        bus := bus.(calls := bus.calls[w.serial := Waiting], sendQueue := bus.sendQueue + [w.serial]);
      } else {
        w.open := false;
        bus := bus.(calls := bus.calls[w.serial := Refused]);
      }
      forall n | n in channels
        ensures ChannelOk(n, channels[n])
      {
        assert old(ChannelOk(n, channels[n]));
      }
    }

    /** `send_buf` up to the wait, when nobody intervenes: three steps of the bus. The channel is registered under the
        id the request is queued with, and waits, empty, if there was room. */
    method SendBuf(room: bool) returns (w: OneShot, ghost taken: Bus, ghost registered: Bus)
      requires Valid()
      modifies this`nextRequestId, this`replies, this`txQueue, this`bus, this`channels
      ensures Valid() && fresh(w) && w.serial == old(bus).next
      ensures Step(old(bus), TakeId, taken) && Step(taken, Event.Register(w.serial), registered)
      ensures Step(registered, Send(w.serial, room), bus)
      ensures var req := old(bus).next % 0x1_0000_0000;
              && replies == old(replies)[req := w] && w.open == room && w.message == None
              && txQueue == if room then old(txQueue) + [req] else old(txQueue)
    {
      var req, serial := TakeRequestId();
      taken := bus;
      w := Register(req, serial);
      registered := bus;
      TrySend(req, w, room);
    }

    /** The caller goes away without an answer. */
    method Abandon(w: OneShot)
      requires Valid() && w.serial in channels && channels[w.serial] == w && w.open
      modifies this`bus, w
      ensures Valid() && Step(old(bus), Cancel(w.serial), bus) && !w.open && w.message == None
    {
      assert ChannelOk(w.serial, w);
      w.open := false;
      bus := bus.(calls := bus.calls[w.serial := Cancelled]);
      forall n | n in channels
        ensures ChannelOk(n, channels[n])
      {
        assert old(ChannelOk(n, channels[n]));
      }
    }

    /** The processor's first arm: write the next request out. */
    method WriteRequest() returns (req: nat)
      requires Valid() && |txQueue| > 0
      modifies this`txQueue, this`bus
      ensures Valid() && Step(old(bus), WriteOut, bus) && req == old(txQueue)[0] && txQueue == old(txQueue)[1..]
    {
      req := txQueue[0];
      txQueue := txQueue[1..];
      bus := bus.(sendQueue := bus.sendQueue[1..], atServer := bus.atServer + {bus.sendQueue[0]});
    }

    /** The processor's last arm: an unwatch request takes an id of its own and waits for nothing. */
    method WriteUnwatchRequest() returns (req: nat)
      requires Valid()
      modifies this`nextRequestId, this`bus
      ensures Valid() && Step(old(bus), WriteUnwatch, bus) && req == old(bus).next % 0x1_0000_0000
    {
      req := WrappingIncrement();
      bus := bus.(next := bus.next + 1, unwatches := bus.unwatches + {bus.next}, atServer := bus.atServer + {bus.next});
    }

    /** The reader passes on the server's answer to request n. */
    method ReceiveAnswer(m: Received, ghost n: nat)
      requires Valid() && n in bus.atServer && m.typ != XSD_WATCH_EVENT && m.req == RequestId(n)
      modifies this`rxQueue, this`bus
      ensures Valid() && Step(old(bus), ServerAnswers(n, m.typ, m.tx), bus) && rxQueue == old(rxQueue) + [m]
    {
      rxQueue := rxQueue + [m];
      bus := bus.(atServer := bus.atServer - {n}, inbound := bus.inbound + [Answer(n, m.typ, m.req, m.tx)]);
    }

    /** The reader passes on a watch event. */
    method ReceiveEvent()
      requires Valid()
      modifies this`rxQueue, this`bus
      ensures Valid() && Step(old(bus), ServerNotifies, bus)
      ensures rxQueue == old(rxQueue) + [Received(XSD_WATCH_EVENT, 0, 0)]
    {
      rxQueue := rxQueue + [Received(XSD_WATCH_EVENT, 0, 0)];
      bus := bus.(inbound := bus.inbound + [Notice(XSD_WATCH_EVENT, 0, 0)]);
    }

    /** The processor's second arm. A message that is no watch event goes to the channel registered under its id, if
        that is still open, and to no other; in every state that a run can reach, the answer to a call that waits
        reaches that call's channel. */
    method HandleReceived()
      requires Valid() && |rxQueue| > 0
      modifies this`rxQueue, this`replies, this`bus, replies.Values
      ensures Valid() && Step(old(bus), Dispatch, bus) && rxQueue == old(rxQueue)[1..]
      ensures var m := old(rxQueue)[0];
              if (m.typ == 15 && m.req == 0 && m.tx == 0) || m.req !in old(replies) then
                && replies == old(replies)
                && forall n :: n in channels ==> Untouched(old(channels[n].open), old(channels[n].message), channels[n])
              else
                && replies == old(replies) - {m.req}
                && old(replies)[m.req].message
                   == (if old(replies[m.req].open) then Some(m) else old(replies[m.req].message))
                && !old(replies)[m.req].open
                && forall n :: n in channels && channels[n] != old(replies)[m.req] ==>
                     Untouched(old(channels[n].open), old(channels[n].message), channels[n])
      ensures Inv(old(bus)) && Window(old(bus)) ==>
                var m := old(bus).inbound[0];
                m.Answer? && m.serial in old(bus).calls && old(bus).calls[m.serial].Waiting? ==>
                  m.serial in channels && channels[m.serial].message == Some(old(rxQueue)[0])
    {
      hide Inv, Window, ChannelOk, Dispatched;
      var m := rxQueue[0];
      ghost var s := bus;
      assert Carries(m, bus.inbound[0]);
      if Inv(s) && Window(s) {
        WaiterFound(s);
      }
      OpenWhileWaiting();
      if m.typ == XSD_WATCH_EVENT && m.req == 0 && m.tx == 0 {
        Discard();
      } else if m.req in replies {
        Resolve(m);
      } else {
        Discard();
      }
    }

    lemma OpenWhileWaiting()
      requires Valid()
      ensures forall n :: n in bus.calls && bus.calls[n].Waiting? ==> n in channels && channels[n].open
    {
      forall n | n in bus.calls && bus.calls[n].Waiting?
        ensures n in channels && channels[n].open
      {
        assert ChannelOk(n, channels[n]);
      }
    }

    /** A message for nobody. */
    method Discard()
      requires Valid() && |rxQueue| > 0
      requires IsWatchEvent(bus.inbound[0]) || rxQueue[0].req !in replies
      modifies this`rxQueue, this`bus
      ensures Valid() && bus == Dispatched(old(bus)) && rxQueue == old(rxQueue)[1..]
    {
      assert Carries(rxQueue[0], bus.inbound[0]);
      rxQueue := rxQueue[1..];
      ghost var s := bus;
      bus := bus.(inbound := bus.inbound[1..]);
      forall n | n in channels
        ensures ChannelOk(n, channels[n])
      {
        assert old(ChannelOk(n, channels[n]));
      }
    }

    /** Hand the first message to the channel registered under its id and forget the channel. */
    method Resolve(m: Received)
      requires Valid() && |rxQueue| > 0 && m == rxQueue[0] && m.req in replies
      requires !IsWatchEvent(bus.inbound[0])
      modifies this`rxQueue, this`replies, this`bus, replies[m.req]
      ensures Valid() && bus == Dispatched(old(bus))
      ensures rxQueue == old(rxQueue)[1..] && replies == old(replies) - {m.req}
      ensures var w := old(replies)[m.req];
              !w.open && w.message == if old(w.open) then Some(m) else old(w.message)
    {
      hide Step, Inv, Window, IsWatchEvent;
      var w := replies[m.req];
      assert ChannelOk(bus.replies[m.req], w);
      assert Carries(m, bus.inbound[0]);
      rxQueue := rxQueue[1..];
      replies := replies - {m.req};
      bus := Dispatched(bus);
      if w.open {
        w.message := Some(m);
      }
      w.open := false;
      forall n | n in channels
        ensures ChannelOk(n, channels[n])
      {
        assert old(ChannelOk(n, channels[n]));
      }
    }
  }

  predicate Untouched(open: bool, message: Option<Received>, w: OneShot)
    reads w
  {
    w.open == open && w.message == message
  }

  /** If the first message answers a call that waits, that call's channel is registered under its id. */
  lemma WaiterFound(s: Bus)
    requires Inv(s) && Window(s) && |s.inbound| > 0
    ensures var m := s.inbound[0];
            m.Answer? && m.serial in s.calls && s.calls[m.serial].Waiting? ==>
              m.req in s.replies && s.replies[m.req] == m.serial && !IsWatchEvent(m)
  {
    hide Window;
    var m := s.inbound[0];
    assert InboundOk(s, m);
    if m.Answer? && m.serial in s.calls {
      assert CallOk(s, m.serial);
    }
  }

  /** The message as received is the header of the message the server sent. */
  predicate Carries(r: Received, m: Inbound) {
    r.typ == m.typ && r.req == m.req && r.tx == m.tx
  }
}
