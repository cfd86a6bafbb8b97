// The two queues of websocket notifications (rpcwebsocket.go).  The goroutines of a
// client are a transition system over their channels.

module Notifications {

  // ----- queueHandler -----

  /** What the select of the handler meets: an input, with whether the reader is ready
      for it; a closed input; a reader that takes an element; the quit channel. */
  datatype Event<T> = Input(n: T, ready: bool) | Closed | Taken | Quit

  ghost function Inputs<T>(events: seq<Event<T>>): seq<T> {
    if events == [] then []
    else Inputs(events[..|events| - 1]) + if events[|events| - 1].Input? then [events[|events| - 1].n] else []
  }

  /** The number of elements that a reader could have got: of every input and of every
      time it took one, unless there was none. */
  ghost function Backlog<T>(events: seq<Event<T>>): (r: nat) {
    if events == [] then 0
    else
      var before := Backlog(events[..|events| - 1]);
      match events[|events| - 1]
      case Input(_, ready) => if before == 0 && ready then 0 else before + 1
      case Taken => if before == 0 then 0 else before - 1
      case _ => before
  }

  /** What went out and what is queued after some events. */
  ghost predicate Handled<T>(events: seq<Event<T>>, out: seq<T>, q: seq<T>) {
    Inputs(events) == out + q && |q| == Backlog(events)
  }

  /** The handler is a queue: one more input goes straight out if nothing is queued and the
      reader is ready, and else to the end of the queue; a reader that takes an element
      gets the first one. */
  lemma HandlesAsQueue<T>(events: seq<Event<T>>, e: Event<T>, out: seq<T>, q: seq<T>, out': seq<T>, q': seq<T>)
    requires Handled(events, out, q) && Handled(events + [e], out', q')
    ensures match e
            case Input(n, ready) =>
              if q == [] && ready then out' == out + [n] && q' == [] else out' == out && q' == q + [n]
            case Taken => if q == [] then out' == out && q' == [] else out' == out + [q[0]] && q' == q[1..]
            case _ => out' == out && q' == q
  {
    assert (events + [e])[..|events|] == events;
    match e {
      case Input(n, ready) =>
        if q == [] && ready {
          SameCut(out', q', out + [n], []);
        } else {
          assert out' + q' == out + (q + [n]);
          SameCut(out', q', out, q + [n]);
        }
      case Taken =>
        if q == [] {
          SameCut(out', q', out, q);
        } else {
          assert out + q == (out + [q[0]]) + q[1..];
          SameCut(out', q', out + [q[0]], q[1..]);
        }
      case _ => SameCut(out', q', out, q);
    }
  }

  lemma SameCut<T>(a: seq<T>, b: seq<T>, c: seq<T>, d: seq<T>)
    requires a + b == c + d && |b| == |d|
    ensures a == c && b == d
  {
    assert a == (a + b)[..|a|] && b == (a + b)[|a|..];
    assert c == (c + d)[..|a|] && d == (c + d)[|a|..];
  }

  /** After nothing, nothing went out and nothing is queued. */
  lemma HandlesNothing<T>(out: seq<T>, q: seq<T>)
    requires Handled([], out, q)
    ensures out == q == []
  {}

  function Takes<T>(k: nat): (events: seq<Event<T>>)
    ensures |events| == k && forall i :: 0 <= i < k ==> events[i] == Taken
  {
    if k == 0 then [] else Takes(k - 1) + [Taken]
  }

  /** A reader that takes k elements gets the first k of the queue. */
  lemma {:induction false} TakesFromQueue<T>(events: seq<Event<T>>, k: nat, out: seq<T>, q: seq<T>, out': seq<T>, q': seq<T>)
    requires Handled(events, out, q) && Handled(events + Takes<T>(k), out', q')
    ensures if k <= |q| then out' == out + q[..k] && q' == q[k..] else out' == out + q && q' == []
    decreases k
  {
    if k == 0 {
      assert events + Takes<T>(0) == events;
      assert out == Inputs(events)[..|out|] == out' && q' == q;
    } else {
      var before := events + Takes<T>(k - 1);
      assert before + [Taken] == events + Takes<T>(k);
      assert (events + Takes<T>(k))[..|before|] == before;
      var out1, q1 := Split(before);
      TakesFromQueue(events, k - 1, out, q, out1, q1);
      HandlesAsQueue(before, Taken, out1, q1, out', q');
    }
  }

  /** There is always such a state: the queue never holds more than came in. */
  lemma {:induction false} Split<T>(events: seq<Event<T>>) returns (out: seq<T>, q: seq<T>)
    ensures Handled(events, out, q)
  {
    if events == [] {
      out, q := [], [];
    } else {
      out, q := Split(events[..|events| - 1]);
      var all := Inputs(events);
      out, q := all[..|all| - Backlog(events)], all[|all| - Backlog(events)..];
    }
  }

  /** So after as many readings as there were inputs everything has gone out, in order. */
  method DrainedHandler<T>(events: seq<Event<T>>, k: nat) returns (out: seq<T>, q: seq<T>)
    requires forall e :: e in events ==> e.Input? || e.Taken?
    requires k >= |Inputs(events)|
    ensures out == Inputs(events) && q == []
  {
    var handled;
    out, q, handled := QueueHandler(events + Takes<T>(k));
    assert handled == |events + Takes<T>(k)| by {
      assert forall i :: 0 <= i < |events| ==> events[i] in events;
    }
    assert (events + Takes<T>(k))[..handled] == events + Takes<T>(k);
    ghost var out0, q0 := Split(events);
    TakesFromQueue(events, k, out0, q0, out, q);
  }

  /** Queues what comes in and sends the oldest first.  Nothing is lost, doubled or
      overtaken, and an element waits only if the reader was not ready for it. */
  method QueueHandler<T>(events: seq<Event<T>>) returns (out: seq<T>, q: seq<T>, handled: nat)
    ensures handled <= |events|
    ensures forall i :: 0 <= i < handled ==> !events[i].Closed? && !events[i].Quit?
    ensures handled < |events| ==> events[handled].Closed? || events[handled].Quit?
    ensures Handled(events[..handled], out, q)
  {
    out, q, handled := [], [], 0;
    var dequeue, skipQueue := false, true;
    var next: seq<T> := [];
    while handled < |events|
      invariant handled <= |events|
      invariant forall i :: 0 <= i < handled ==> !events[i].Closed? && !events[i].Quit?
      invariant Inputs(events[..handled]) == out + q
      invariant |q| == Backlog(events[..handled])
      invariant skipQueue == !dequeue == (q == [])
      invariant q != [] ==> next == [q[0]]
    {
      assert events[..handled + 1][..handled] == events[..handled];
      match events[handled] {
        case Closed => return;
        case Quit => return;
        case Input(n, ready) =>
          if skipQueue && ready {
            out := out + [n];
          } else {
            q := q + [n];
            dequeue, skipQueue, next := true, false, [q[0]];
          }
        case Taken =>
          if dequeue {
            out := out + next;
            q := q[1..] + [q[|q| - 1]];
            q := q[..|q| - 1];
            if |q| == 0 {
              dequeue, skipQueue := false, true;
            } else {
              next := [q[0]];
            }
          }
      }
      handled := handled + 1;
    }
  }

  // ----- The notification queue of a client -----

  /** The room of the send channel, and of the channel that reports what was sent. */
  const SEND_BUFFER_SIZE := 50
  const SENT_BUFFER_SIZE := 1

  /** The bytes of a message. */
  datatype Message = Message(bytes: string)

  /** A message to write; a notification wants a report. */
  datatype Response = Response(msg: Message, notification: bool)

  /** Where notificationQueueHandler is: at its select, in SendMessage before the check
      for a disconnected client, at the send channel, or at the report that the
      message was not sent; then at its end. */
  datatype Handler = Selecting | Checking(msg: Message) | Sending(msg: Message) | Refusing | Cleaning | Returned

  /** Where outHandler is: at its select, writing, reporting; or draining the send
      channel at its end. */
  datatype Writer = Idle | Writing(r: Response) | Reporting | Draining | Dropping | Stopped

  datatype Client = Client(
    handler: Handler,
    waiting: bool,
    pending: seq<Message>,
    sendChan: seq<Response>,
    writer: Writer,
    sentChan: seq<bool>,
    disconnected: bool,
    received: seq<Message>,
    written: seq<Message>,
    dropped: seq<Message>)

  datatype Step =
    | Queue(msg: Message)       // a notification reaches the handler
    | Sent                // the handler takes a report
    | HandlerQuits
    | Check
    | Send
    | Refuse
    | Clean               // the handler takes a report while it cleans up
    | HandlerReturns
    | Reply(msg: Message)       // another goroutine sends a reply
    | Take                // the writer takes a message
    | Write(ok: bool)
    | Report
    | WriterQuits
    | Drain
    | Drop                // the writer reports that a message was not sent
    | WriterStops
    | Disconnect

  /** The step can happen; a send to a channel without room cannot. */
  ghost predicate Enabled(c: Client, s: Step) {
    match s
    case Queue(_) => c.handler.Selecting?
    case Sent => c.handler.Selecting? && c.sentChan != []
    case HandlerQuits => c.handler.Selecting? && c.disconnected
    case Check => c.handler.Checking?
    case Send => c.handler.Sending? && |c.sendChan| < SEND_BUFFER_SIZE
    case Refuse => c.handler.Refusing? && |c.sentChan| < SENT_BUFFER_SIZE
    case Clean => c.handler.Cleaning? && c.sentChan != []
    case HandlerReturns => c.handler.Cleaning? && c.sentChan == []
    case Reply(_) => |c.sendChan| < SEND_BUFFER_SIZE
    case Take => c.writer.Idle? && c.sendChan != []
    case Write(_) => c.writer.Writing?
    case Report => c.writer.Reporting? && |c.sentChan| < SENT_BUFFER_SIZE
    case WriterQuits => c.writer.Idle? && c.disconnected
    case Drain => c.writer.Draining? && c.sendChan != []
    case Drop => c.writer.Dropping? && |c.sentChan| < SENT_BUFFER_SIZE
    case WriterStops => c.writer.Draining? && c.sendChan == []
    case Disconnect => true
  }

  ghost function Apply(c: Client, s: Step): Client
    requires Enabled(c, s)
  {
    match s
    case Queue(m) =>
      if !c.waiting then c.(handler := Checking(m), received := c.received + [m])
      else c.(pending := c.pending + [m], received := c.received + [m])
    case Sent =>
      if c.pending == [] then c.(sentChan := c.sentChan[1..], waiting := false)
      else c.(sentChan := c.sentChan[1..], pending := c.pending[1..], handler := Checking(c.pending[0]))
    case HandlerQuits => c.(handler := Cleaning)
    case Check =>
      if c.disconnected then c.(handler := Refusing, dropped := c.dropped + [c.handler.msg])
      else c.(handler := Sending(c.handler.msg))
    case Send => c.(handler := Selecting, waiting := true, sendChan := c.sendChan + [Response(c.handler.msg, true)])
    case Refuse => c.(handler := Selecting, waiting := true, sentChan := c.sentChan + [false])
    case Clean => c.(sentChan := c.sentChan[1..])
    case HandlerReturns => c.(handler := Returned)
    case Reply(m) => c.(sendChan := c.sendChan + [Response(m, false)])
    case Take => c.(sendChan := c.sendChan[1..], writer := Writing(c.sendChan[0]))
    case Write(ok) =>
      var r := c.writer.r;
      if !ok then c.(writer := Draining, disconnected := true, dropped := c.dropped + NotificationOf(r))
      else c.(writer := if r.notification then Reporting else Idle, written := c.written + NotificationOf(r))
    case Report => c.(writer := Idle, sentChan := c.sentChan + [true])
    case WriterQuits => c.(writer := Draining)
    case Drain =>
      var r := c.sendChan[0];
      c.(sendChan := c.sendChan[1..], writer := if r.notification then Dropping else Draining, dropped := c.dropped + NotificationOf(r))
    case Drop => c.(writer := Draining, sentChan := c.sentChan + [false])
    case WriterStops => c.(writer := Stopped)
    case Disconnect => c.(disconnected := true)
  }

  ghost function NotificationOf(r: Response): seq<Message> {
    if r.notification then [r.msg] else []
  }

  ghost function Notifications(chan: seq<Response>): seq<Message> {
    if chan == [] then [] else NotificationOf(chan[0]) + Notifications(chan[1..])
  }

  lemma {:induction false} NotificationsAppend(chan: seq<Response>, r: Response)
    ensures Notifications(chan + [r]) == Notifications(chan) + NotificationOf(r)
  {
    hide NotificationOf;
    if chan == [] {
      assert chan + [r] == [r] && [r][1..] == [];
    } else {
      NotificationsAppend(chan[1..], r);
      assert (chan + [r])[1..] == chan[1..] + [r];
      assert NotificationOf(chan[0]) + (Notifications(chan[1..]) + NotificationOf(r))
          == (NotificationOf(chan[0]) + Notifications(chan[1..])) + NotificationOf(r);
    }
  }

  /** Notifications on their way to the connection. */
  ghost function InFlight(c: Client): seq<Message> {
    (if c.writer.Writing? then NotificationOf(c.writer.r) else [])
    + Notifications(c.sendChan)
    + if c.handler.Checking? || c.handler.Sending? then [c.handler.msg] else []
  }

  /** How many there are past the check for a disconnected client. */
  ghost function Passed(c: Client): nat {
    (if c.writer.Writing? then |NotificationOf(c.writer.r)| else 0)
    + |Notifications(c.sendChan)|
    + if c.handler.Sending? then 1 else 0
  }

  /** Notifications on their way and reports on their way back. */
  ghost function Outstanding(c: Client): nat {
    Passed(c) + |c.sentChan|
    + (if c.writer.Reporting? || c.writer.Dropping? then 1 else 0)
    + if c.handler.Checking? || c.handler.Refusing? then 1 else 0
  }

  ghost predicate OneAtATime(c: Client) {
    && Outstanding(c) <= 1
    && (!c.waiting ==> c.pending == [])
    && (!c.waiting && !c.handler.Checking? && !c.handler.Sending? && !c.handler.Refusing? ==> Outstanding(c) == 0)
    && (c.waiting && !c.disconnected ==> Outstanding(c) == 1)
    && (c.handler.Cleaning? || c.handler.Returned? ==> c.disconnected)
    && (c.dropped != [] ==> c.disconnected && Passed(c) == 0)
    && (c.writer.Draining? || c.writer.Dropping? || c.writer.Stopped? ==> c.disconnected)
  }

  ghost predicate Ordered(received: seq<Message>, written: seq<Message>, dropped: seq<Message>, inFlight: seq<Message>, pending: seq<Message>) {
    received == written + dropped + inFlight + pending
  }

  ghost predicate InOrder(c: Client) {
    Ordered(c.received, c.written, c.dropped, InFlight(c), c.pending)
  }

  ghost predicate Start(c: Client) {
    c == Client(Selecting, false, [], [], Idle, [], c.disconnected, [], [], [])
  }

  lemma NotificationsHead(chan: seq<Response>)
    requires chan != []
    ensures Notifications(chan) == NotificationOf(chan[0]) + Notifications(chan[1..])
  {}

  /** Every step of every goroutine leaves at most one notification outstanding. */
  lemma StepKeepsOneAtATime(c: Client, s: Step)
    requires OneAtATime(c) && Enabled(c, s)
    ensures OneAtATime(Apply(c, s))
  {
    hide Notifications;
    match s
    case Send => NotificationsAppend(c.sendChan, Response(c.handler.msg, true));
    case Reply(m) => NotificationsAppend(c.sendChan, Response(m, false));
    case Take => NotificationsHead(c.sendChan);
    case Drain => NotificationsHead(c.sendChan);
    case _ =>
  }

  /** The one notification on its way, if there is one, is taken from the new or the
      pending ones, and leaves when it is written or dropped. */
  ghost function InFlightAfter(c: Client, s: Step): seq<Message>
    requires Enabled(c, s)
  {
    if s.Queue? && !c.waiting then [s.msg]
    else if s.Sent? && c.pending != [] then [c.pending[0]]
    else if Leaves(c, s) then []
    else InFlight(c)
  }

  ghost predicate Leaves(c: Client, s: Step)
    requires Enabled(c, s)
  {
    (s.Check? && c.disconnected) || (s.Write? && c.writer.r.notification) || (s.Drain? && c.sendChan[0].notification)
  }

  ghost function Leaving(c: Client, s: Step): Message
    requires Enabled(c, s) && Leaves(c, s)
  {
    if s.Check? then c.handler.msg else if s.Write? then c.writer.r.msg else c.sendChan[0].msg
  }

  lemma HandlerMovesOne(c: Client, s: Step)
    requires OneAtATime(c) && Enabled(c, s) && (s.Queue? || s.Sent? || s.Check? || s.Send?)
    ensures InFlight(Apply(c, s)) == InFlightAfter(c, s)
    ensures Leaves(c, s) ==> InFlight(c) == [Leaving(c, s)]
  {
    hide Notifications;
    if s.Send? {
      NotificationsAppend(c.sendChan, Response(c.handler.msg, true));
    }
  }

  lemma WriterMovesOne(c: Client, s: Step)
    requires OneAtATime(c) && Enabled(c, s) && (s.Reply? || s.Take? || s.Write? || s.Drain?)
    ensures InFlight(Apply(c, s)) == InFlightAfter(c, s)
    ensures Leaves(c, s) ==> InFlight(c) == [Leaving(c, s)] && (!s.Check? ==> c.dropped == [])
  {
    hide Notifications, OneAtATime, Outstanding, Passed, NotificationOf, InFlight, Apply, Enabled;
    if s.Reply? || s.Take? {
      MovesNone(c, s);
    } else if s.Write? {
      WriteMovesOne(c, s);
    } else {
      DrainMovesOne(c, s);
    }
  }

  lemma MovesNone(c: Client, s: Step)
    requires OneAtATime(c) && Enabled(c, s) && (s.Reply? || s.Take?)
    ensures InFlight(Apply(c, s)) == InFlight(c)
  {
    hide Notifications;
    if s.Reply? {
      NotificationsAppend(c.sendChan, Response(s.msg, false));
    } else {
      NotificationsHead(c.sendChan);
    }
  }

  lemma WriteMovesOne(c: Client, s: Step)
    requires OneAtATime(c) && Enabled(c, s) && s.Write?
    ensures InFlight(Apply(c, s)) == if c.writer.r.notification then [] else InFlight(c)
    ensures c.writer.r.notification ==> InFlight(c) == [c.writer.r.msg] && c.dropped == []
  {
    hide Notifications;
  }

  lemma DrainMovesOne(c: Client, s: Step)
    requires OneAtATime(c) && Enabled(c, s) && s.Drain?
    ensures InFlight(Apply(c, s)) == if c.sendChan[0].notification then [] else InFlight(c)
    ensures c.sendChan[0].notification ==> InFlight(c) == [c.sendChan[0].msg] && c.dropped == []
  {
    hide Notifications;
    NotificationsHead(c.sendChan);
  }

  lemma MovesOne(c: Client, s: Step)
    requires OneAtATime(c) && Enabled(c, s)
    ensures InFlight(Apply(c, s)) == InFlightAfter(c, s)
    ensures Leaves(c, s) ==> InFlight(c) == [Leaving(c, s)] && (!s.Check? ==> c.dropped == [])
    ensures (s.Queue? && !c.waiting) || s.Sent? ==> InFlight(c) == [] && (s.Queue? ==> c.pending == [])
  {
    hide Notifications, OneAtATime;
    if s.Queue? || s.Sent? || s.Check? || s.Send? {
      HandlerMovesOne(c, s);
      if (s.Queue? && !c.waiting) || s.Sent? {
        NothingInFlight(c, s);
      }
    } else if s.Reply? || s.Take? || s.Write? || s.Drain? {
      WriterMovesOne(c, s);
    }
  }

  lemma NothingInFlight(c: Client, s: Step)
    requires OneAtATime(c) && Enabled(c, s) && ((s.Queue? && !c.waiting) || s.Sent?)
    ensures InFlight(c) == [] && (s.Queue? ==> c.pending == [])
  {}

  /** Every step of every goroutine keeps the order. */
  lemma StepKeepsInOrder(c: Client, s: Step)
    requires OneAtATime(c) && InOrder(c) && Enabled(c, s)
    ensures InOrder(Apply(c, s))
  {
    hide InFlight, OneAtATime, Ordered;
    MovesOne(c, s);
    if Leaves(c, s) {
      LeaveOrdered(c.received, c.written, c.dropped, Leaving(c, s), c.pending);
    } else if s.Queue? {
      QueueOrdered(c.received, c.written, c.dropped, InFlight(c), c.pending, s.msg);
    } else if s.Sent? {
      NextOrdered(c.received, c.written, c.dropped, c.pending);
    }
    assert c.written + [] == c.written && c.dropped + [] == c.dropped;
  }

  lemma LeaveOrdered(received: seq<Message>, written: seq<Message>, dropped: seq<Message>, m: Message, pending: seq<Message>)
    requires Ordered(received, written, dropped, [m], pending)
    ensures Ordered(received, written, dropped + [m], [], pending)
    ensures dropped == [] ==> Ordered(received, written + [m], dropped, [], pending)
  {
    assert written + (dropped + [m]) + [] == written + dropped + [m];
  }

  lemma QueueOrdered(received: seq<Message>, written: seq<Message>, dropped: seq<Message>, inFlight: seq<Message>, pending: seq<Message>, m: Message)
    requires Ordered(received, written, dropped, inFlight, pending)
    ensures Ordered(received + [m], written, dropped, inFlight, pending + [m])
    ensures inFlight == pending == [] ==> Ordered(received + [m], written, dropped, [m], [])
  {}

  lemma NextOrdered(received: seq<Message>, written: seq<Message>, dropped: seq<Message>, pending: seq<Message>)
    requires Ordered(received, written, dropped, [], pending)
    ensures pending != [] ==> Ordered(received, written, dropped, [pending[0]], pending[1..])
  {
    if pending != [] {
      assert pending == [pending[0]] + pending[1..];
    }
  }

  ghost predicate Run(c: Client, steps: seq<Step>, d: Client)
    decreases |steps|
  {
    if steps == [] then c == d
    else Enabled(c, steps[0]) && Run(Apply(c, steps[0]), steps[1..], d)
  }

  lemma {:induction false} RunKeepsOrder(c: Client, steps: seq<Step>, d: Client)
    requires OneAtATime(c) && InOrder(c) && Run(c, steps, d)
    ensures OneAtATime(d) && InOrder(d)
    decreases |steps|
  {
    if steps != [] {
      StepKeepsOneAtATime(c, steps[0]);
      StepKeepsInOrder(c, steps[0]);
      RunKeepsOrder(Apply(c, steps[0]), steps[1..], d);
    }
  }

  /** In every run at most one notification is outstanding, so whoever has to report
      finds the one place of the report channel free. */
  lemma ReportsNeverBlock(c: Client, steps: seq<Step>, d: Client)
    requires Start(c) && Run(c, steps, d)
    ensures Outstanding(d) <= 1
    ensures d.handler.Refusing? ==> Enabled(d, Refuse)
    ensures d.writer.Reporting? ==> Enabled(d, Report)
    ensures d.writer.Dropping? ==> Enabled(d, Drop)
  {
    Reachable(c, steps, d);
  }

  /** In every run of a client that is still connected, pending notifications wait for
      one that is on its way or for its report, never for nothing. */
  lemma PendingIsWokenUp(c: Client, steps: seq<Step>, d: Client)
    requires Start(c) && Run(c, steps, d)
    ensures d.pending != [] && !d.disconnected ==> Outstanding(d) == 1
  {
    Reachable(c, steps, d);
  }

  /** In every run the notifications are written in the order they were queued, without
      gaps; until the client is disconnected, those not written yet are one on its way
      and the pending ones. */
  lemma WrittenInOrder(c: Client, steps: seq<Step>, d: Client)
    requires Start(c) && Run(c, steps, d)
    ensures d.written <= d.received
    ensures !d.disconnected ==> d.received == d.written + InFlight(d) + d.pending && |InFlight(d)| <= 1
  {
    hide Run, Start, OneAtATime, InOrder, InFlight;
    Reachable(c, steps, d);
    OrderOf(d);
  }

  lemma Reachable(c: Client, steps: seq<Step>, d: Client)
    requires Start(c) && Run(c, steps, d)
    ensures OneAtATime(d) && InOrder(d)
  {
    hide Run;
    RunKeepsOrder(c, steps, d);
  }

  lemma OrderOf(d: Client)
    requires OneAtATime(d) && InOrder(d)
    ensures d.written <= d.received
    ensures !d.disconnected ==> d.received == d.written + InFlight(d) + d.pending && |InFlight(d)| <= 1
  {
    hide Notifications;
  }

  // ----- A client that stays connected -----

  /** A client is disconnected only by a failed write or from outside, and drops nothing
      before. */
  lemma {:induction false} StaysConnected(c: Client, steps: seq<Step>, d: Client)
    requires OneAtATime(c) && !c.disconnected && Run(c, steps, d)
    requires forall s :: s in steps ==> s != Disconnect && s != Write(false)
    ensures OneAtATime(d) && !d.disconnected && d.dropped == []
    decreases |steps|
  {
    hide Outstanding, Passed, NotificationOf;
    if steps != [] {
      StepKeepsOneAtATime(c, steps[0]);
      assert steps[0] in steps && forall s :: s in steps[1..] ==> s in steps;
      StaysConnected(Apply(c, steps[0]), steps[1..], d);
    }
  }

  /** The send channel never holds more than it has room for, nor the report channel. */
  lemma {:induction false} ChannelsFit(c: Client, steps: seq<Step>, d: Client)
    requires |c.sendChan| <= 50 && |c.sentChan| <= 1 && Run(c, steps, d)
    ensures |d.sendChan| <= 50 && |d.sentChan| <= 1
    decreases |steps|
  {
    hide Apply, Enabled;
    if steps != [] {
      ChannelsFitStep(c, steps[0]);
      ChannelsFit(Apply(c, steps[0]), steps[1..], d);
    }
  }

  lemma ChannelsFitStep(c: Client, s: Step)
    requires |c.sendChan| <= 50 && |c.sentChan| <= 1 && Enabled(c, s)
    ensures |Apply(c, s).sendChan| <= 50 && |Apply(c, s).sentChan| <= 1
  {
    hide NotificationOf;
  }

  /** How many steps a message in the send channel still needs. */
  ghost function StepsOf(r: Response): nat {
    if r.notification then 4 else 2
  }

  ghost function StepsOfAll(chan: seq<Response>): nat {
    if chan == [] then 0 else StepsOf(chan[0]) + StepsOfAll(chan[1..])
  }

  lemma {:induction false} StepsOfAppend(chan: seq<Response>, r: Response)
    ensures StepsOfAll(chan + [r]) == StepsOfAll(chan) + StepsOf(r)
  {
    if chan == [] {
      assert (chan + [r])[1..] == [];
    } else {
      StepsOfAppend(chan[1..], r);
      assert (chan + [r])[1..] == chan[1..] + [r];
    }
  }

  /** A bound on the steps until nothing is left to do. */
  ghost function Remaining(c: Client): nat {
    7 * |c.pending| + StepsOfAll(c.sendChan) + |c.sentChan|
    + (match c.handler case Checking(_) => 6 case Sending(_) => 5 case Refusing => 2 case _ => 0)
    + (match c.writer case Writing(r) => StepsOf(r) - 1 case Reporting => 2 case _ => 0)
  }

  /** A step of the handler or of the writer, with a write that succeeds. */
  ghost predicate Forward(s: Step) {
    s in {Sent, Check, Send, Refuse, Take, Write(true), Report}
  }

  /** Some step can happen as long as there is something left to do. */
  lemma NextStep(c: Client) returns (s: Step)
    requires OneAtATime(c) && !c.disconnected && Remaining(c) > 0
    ensures Forward(s) && Enabled(c, s)
  {
    s :=
      if c.writer.Writing? then Write(true)
      else if c.writer.Reporting? then Report
      else if c.sendChan != [] then Take
      else match c.handler
           case Checking(_) => Check
           case Sending(_) => Send
           case Refusing => Refuse
           case _ => Sent;
  }

  lemma StepGoesForward(c: Client, s: Step)
    requires !c.disconnected && Forward(s) && Enabled(c, s)
    ensures Remaining(Apply(c, s)) < Remaining(c)
    ensures Apply(c, s).received == c.received && !Apply(c, s).disconnected
  {
    hide NotificationOf;
    if s.Send? {
      StepsOfAppend(c.sendChan, Response(c.handler.msg, true));
    }
  }

  lemma AllWritten(c: Client)
    requires OneAtATime(c) && InOrder(c) && !c.disconnected && Remaining(c) == 0
    ensures c.written == c.received
  {}

  /** From every state of a connected client there is a way on, of the handler and the
      writer alone, after which everything that was received has been written. */
  lemma {:induction false} CanFinish(c: Client) returns (steps: seq<Step>, d: Client)
    requires OneAtATime(c) && InOrder(c) && !c.disconnected
    ensures Run(c, steps, d) && forall s :: s in steps ==> Forward(s)
    ensures d.written == d.received == c.received && !d.disconnected
    decreases Remaining(c)
  {
    hide OneAtATime, InOrder, Remaining, Enabled, Apply, Forward;
    if Remaining(c) == 0 {
      AllWritten(c);
      steps, d := [], c;
    } else {
      var s := NextStep(c);
      StepGoesForward(c, s);
      StepKeepsOneAtATime(c, s);
      StepKeepsInOrder(c, s);
      var rest;
      rest, d := CanFinish(Apply(c, s));
      steps := [s] + rest;
      assert steps[1..] == rest;
    }
  }

  /** So no notification of a connected client is ever stuck: whatever happened before,
      it can still be written, and then all that were received have been. */
  lemma NothingIsStuck(c: Client, steps: seq<Step>, d: Client) returns (more: seq<Step>, e: Client)
    requires Start(c) && Run(c, steps, d) && !d.disconnected
    ensures Run(d, more, e) && forall s :: s in more ==> Forward(s)
    ensures e.written == e.received == d.received && !e.disconnected
  {
    hide Run, OneAtATime, InOrder;
    Reachable(c, steps, d);
    more, e := CanFinish(d);
  }
}
