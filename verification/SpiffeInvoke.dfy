/** api/spiffe_client.js: one gRPC call as an event machine with two caps and a deadline. */
module SpiffeInvoke {
  import opened Bytes
  import opened Timers

  const CANCELLED := 1

  /** A message as the JSON text it is measured by; "" when it has none. */
  type Message = string

  /** `streams` is a request or a response stream; otherwise the call has one callback. */
  datatype Options = Options(streams: bool, wanted: nat, maxResultBytes: nat, budget: nat)

  datatype Stop = Full | Enough | Timeout | Ended

  datatype Status = OK | DeadlineExceeded | Failed(code: int)

  datatype Outcome = Outcome(status: Status, messages: seq<Message>, stopped: Stop)

  /** What the library emits, and the timer going off. `cancel` is taken to emit nothing
      before it returns; what it emits later is an event like any other. */
  datatype Event =
    | Reply(message: Message) | ReplyError(code: int)
    | Data(message: Message) | Error(code: int) | End | StatusIs(code: int)
    | Timer

  /** `stopped` is None for the empty string. */
  datatype State = State(
    settled: bool,
    timer: Option<nat>,
    messages: seq<Message>,
    bytes: nat,
    stopped: Option<Stop>,
    cancelled: bool,
    outcome: Option<Outcome>)

  function Start(o: Options, now: nat): State {
    State(false, Some(now + o.budget), [], 0, None, false, None)
  }

  function Finish(s: State, status: Status): State {
    if s.settled then s
    else s.(settled := true, timer := None,
            outcome := Some(Outcome(status, s.messages, if s.stopped.Some? then s.stopped.value else Ended)))
  }

  /** `keep`: remember a message, and say whether to go on by leaving `stopped` alone. */
  function Keep(o: Options, s: State, m: Message): State {
    var t := s.(messages := s.messages + [m], bytes := s.bytes + |m|);
    if t.bytes >= o.maxResultBytes then t.(stopped := Some(Full))
    else if |t.messages| >= o.wanted then t.(stopped := Some(Enough))
    else t
  }

  predicate KeepsGoing(o: Options, s: State, m: Message) {
    s.bytes + |m| < o.maxResultBytes && |s.messages| + 1 < o.wanted
  }

  function Step(o: Options, s: State, e: Event): State {
    match e
    case Reply(m) => if o.streams then s else Finish(Keep(o, s, m), OK)
    case ReplyError(code) => if o.streams then s else Finish(s, Failed(code))
    case Data(m) =>
      if !o.streams then s
      else if KeepsGoing(o, s, m) then Keep(o, s, m)
      else Finish(Keep(o, s, m).(cancelled := true), OK)
    case Error(code) =>
      if !o.streams then s
      else if code == CANCELLED && s.stopped.Some? then Finish(s, OK)
      else Finish(s, Failed(code))
    case End => if o.streams then Finish(s, OK) else s
    case StatusIs(code) => if o.streams && code != 0 && !s.settled then Finish(s, Failed(code)) else s
    case Timer =>
      if s.settled || s.timer.None? then s
      else Finish(s.(stopped := Some(Timeout), cancelled := true),
                  if s.messages != [] then OK else DeadlineExceeded)
  }

  /** The variables `invoke` closes over, and the handlers that change them. */
  class Call {
    const o: Options
    var settled: bool
    var timer: Option<nat>
    var messages: seq<Message>
    var bytes: nat
    var stopped: Option<Stop>
    var cancelled: bool
    var outcome: Option<Outcome>

    function View(): State
      reads this
    {
      State(settled, timer, messages, bytes, stopped, cancelled, outcome)
    }

    constructor (o: Options, now: nat)
      ensures this.o == o && View() == Start(o, now)
    {
      this.o := o;
      settled, timer, messages, bytes := false, Some(now + o.budget), [], 0;
      stopped, cancelled, outcome := None, false, None;
    }

    method Settle(status: Status)
      modifies this
      ensures View() == Finish(old(View()), status)
    {
      if settled {
        return;
      }
      settled := true;
      timer := None;
      outcome := Some(Outcome(status, messages, if stopped.Some? then stopped.value else Ended));
    }

    method Remember(m: Message) returns (goOn: bool)
      modifies this
      ensures View() == Keep(o, old(View()), m) && goOn == KeepsGoing(o, old(View()), m)
    {
      bytes := bytes + |m|;
      messages := messages + [m];
      if bytes >= o.maxResultBytes {
        stopped := Some(Full);
        return false;
      }
      if |messages| >= o.wanted {
        stopped := Some(Enough);
        return false;
      }
      return true;
    }

    method OnReply(m: Message)
      requires !o.streams
      modifies this
      ensures View() == Step(o, old(View()), Reply(m))
    {
      var _ := Remember(m);
      Settle(OK);
    }

    method OnReplyError(code: int)
      requires !o.streams
      modifies this
      ensures View() == Step(o, old(View()), ReplyError(code))
    {
      Settle(Failed(code));
    }

    method OnData(m: Message)
      requires o.streams
      modifies this
      ensures View() == Step(o, old(View()), Data(m))
    {
      var goOn := Remember(m);
      if !goOn {
        cancelled := true;
        Settle(OK);
      }
    }

    method OnError(code: int)
      requires o.streams
      modifies this
      ensures View() == Step(o, old(View()), Error(code))
    {
      if code == CANCELLED && stopped.Some? {
        Settle(OK);
        return;
      }
      Settle(Failed(code));
    }

    method OnEnd()
      requires o.streams
      modifies this
      ensures View() == Step(o, old(View()), End)
    {
      Settle(OK);
    }

    method OnStatus(code: int)
      requires o.streams
      modifies this
      ensures View() == Step(o, old(View()), StatusIs(code))
    {
      if code != 0 && !settled {
        Settle(Failed(code));
      }
    }

    method OnTimer()
      requires timer.Some?
      modifies this
      ensures View() == Step(o, old(View()), Timer)
    {
      if settled {
        return;
      }
      stopped := Some(Timeout);
      cancelled := true;
      Settle(if |messages| > 0 then OK else DeadlineExceeded);
    }
  }

  // --------------------------------------------------------------- every run

  function Run(o: Options, s: State, events: seq<Event>): State
    decreases |events|
  {
    if events == [] then s else Run(o, Step(o, s, events[0]), events[1..])
  }

  function StopFor(o: Options, got: seq<Message>): Stop {
    if Total(got) >= o.maxResultBytes then Full else if |got| >= o.wanted then Enough else Ended
  }

  /** The outcome read off the events alone, with no flag: the first terminal one. */
  function FirstVerdict(o: Options, got: seq<Message>, events: seq<Event>): Option<Outcome>
    decreases |events|
  {
    if events == [] then None
    else
      var rest := events[1..];
      match events[0]
      case Reply(m) =>
        if o.streams then FirstVerdict(o, got, rest)
        else Some(Outcome(OK, got + [m], StopFor(o, got + [m])))
      case ReplyError(code) =>
        if o.streams then FirstVerdict(o, got, rest) else Some(Outcome(Failed(code), got, Ended))
      case Data(m) =>
        if !o.streams then FirstVerdict(o, got, rest)
        else if StopFor(o, got + [m]) == Ended then FirstVerdict(o, got + [m], rest)
        else Some(Outcome(OK, got + [m], StopFor(o, got + [m])))
      case Error(code) =>
        if o.streams then Some(Outcome(Failed(code), got, Ended)) else FirstVerdict(o, got, rest)
      case End => if o.streams then Some(Outcome(OK, got, Ended)) else FirstVerdict(o, got, rest)
      case StatusIs(code) =>
        if o.streams && code != 0 then Some(Outcome(Failed(code), got, Ended)) else FirstVerdict(o, got, rest)
      case Timer => Some(Outcome(if got != [] then OK else DeadlineExceeded, got, Timeout))
  }

  /** What holds before settlement: nothing has stopped the call and both caps have room. */
  ghost predicate Open(o: Options, s: State) {
    && !s.settled && s.outcome.None? && s.timer.Some? && s.stopped.None? && !s.cancelled
    && s.bytes == Total(s.messages)
    && s.bytes < o.maxResultBytes && |s.messages| < o.wanted
  }

  lemma {:induction false} SettledKeepsOutcome(o: Options, s: State, events: seq<Event>)
    requires s.settled && s.timer.None?
    ensures Run(o, s, events).outcome == s.outcome && Run(o, s, events).timer.None? && Run(o, s, events).settled
    decreases |events|
  {
    if events != [] {
      SettledKeepsOutcome(o, Step(o, s, events[0]), events[1..]);
    }
  }

  /** Whatever the order of events the call settles once, with the outcome of the first
      terminal one, and then holds no timer. In particular a CANCELLED that arrives
      before settlement is always reported as a failure: the branch that would excuse it
      needs `stopped`, which is set only where the call settles in the same turn. */
  lemma {:induction false} SettlesWithFirstVerdict(o: Options, s: State, events: seq<Event>)
    requires Open(o, s)
    ensures var d := Run(o, s, events);
            && d.outcome == FirstVerdict(o, s.messages, events)
            && (d.settled <==> d.outcome.Some?)
            && (d.settled <==> d.timer.None?)
            && (!d.settled ==> Open(o, d))
    decreases |events|
  {
    hide Total;
    if events != [] {
      var e := events[0];
      if e.Data? || e.Reply? {
        TotalSnoc(s.messages, e.message);
      }
      var t := Step(o, s, e);
      if t.settled {
        SettledKeepsOutcome(o, t, events[1..]);
      } else {
        SettlesWithFirstVerdict(o, t, events[1..]);
      }
    }
  }

  /** The messages a run delivers, in order. */
  function Delivered(o: Options, events: seq<Event>): seq<Message>
    decreases |events|
  {
    if events == [] then []
    else
      var rest := Delivered(o, events[1..]);
      if events[0].Data? && o.streams then [events[0].message] + rest
      else if events[0].Reply? && !o.streams then [events[0].message] + rest
      else rest
  }

  /** At the moment of settlement the messages are a prefix of those delivered and within
      both caps but for the last one: 'messages' means exactly `wanted` of them below the
      byte cap, 'size' that the last one alone crossed it, and a deadline is a success
      exactly when something had arrived. */
  ghost predicate AtSettlement(o: Options, got: seq<Message>, later: seq<Message>, x: Outcome) {
    && x.messages <= got + later
    && |x.messages| >= |got|
    && (o.streams ==> |x.messages| <= o.wanted)
    && (x.stopped == Enough ==>
          && (if o.streams then |x.messages| == o.wanted else o.wanted <= 1)
          && Total(x.messages) < o.maxResultBytes && x.status == OK)
    && (x.stopped == Full ==>
          x.messages != [] && x.status == OK && Total(x.messages) >= o.maxResultBytes &&
          (o.streams ==> Total(x.messages[..|x.messages| - 1]) < o.maxResultBytes))
    && (x.stopped == Timeout ==> x.status == if x.messages != [] then OK else DeadlineExceeded)
    && (x.status == DeadlineExceeded ==> x.stopped == Timeout)
    && (x.status.Failed? ==> x.stopped == Ended)
  }

  lemma {:induction false} VerdictIsWithinCaps(o: Options, got: seq<Message>, events: seq<Event>)
    requires o.streams || got == []
    requires Total(got) < o.maxResultBytes && |got| < o.wanted
    ensures var x := FirstVerdict(o, got, events);
            x.Some? ==> AtSettlement(o, got, Delivered(o, events), x.value)
    decreases |events|
  {
    hide Total;
    if events != [] {
      var e := events[0];
      if e.Data? && o.streams {
        var more := got + [e.message];
        assert more[..|more| - 1] == got;
        assert got + Delivered(o, events) == more + Delivered(o, events[1..]);
        if StopFor(o, more) == Ended {
          VerdictIsWithinCaps(o, more, events[1..]);
        }
      } else if e.Reply? && !o.streams {
        assert got + Delivered(o, events) == (got + [e.message]) + Delivered(o, events[1..]);
      } else {
        VerdictIsWithinCaps(o, got, events[1..]);
      }
    }
  }

  /** For every run of a call from its start. */
  lemma InvokeOutcome(o: Options, now: nat, events: seq<Event>)
    requires o.wanted >= 1 && o.maxResultBytes >= 1
    ensures var d := Run(o, Start(o, now), events);
            && d.outcome == FirstVerdict(o, [], events)
            && (d.outcome.Some? ==> AtSettlement(o, [], Delivered(o, events), d.outcome.value))
            && (d.settled <==> d.timer.None?)
  {
    hide AtSettlement;
    SettlesWithFirstVerdict(o, Start(o, now), events);
    VerdictIsWithinCaps(o, [], events);
  }

  /** The call is cancelled at the far end by the event that settles it exactly when that
      is the deadline, or the message that fills a stream: nothing else is cancelled, and
      nothing that this side stopped is left running. */
  lemma CancelledExactly(o: Options, now: nat, events: seq<Event>, e: Event)
    requires o.wanted >= 1 && o.maxResultBytes >= 1
    requires !Run(o, Start(o, now), events).settled && Run(o, Start(o, now), events + [e]).settled
    ensures var d := Run(o, Start(o, now), events + [e]);
            && d.outcome.Some?
            && (d.cancelled <==>
                  e == Timer || (o.streams && (d.outcome.value.stopped == Full || d.outcome.value.stopped == Enough)))
            && (e == Timer <==> d.outcome.value.stopped == Timeout)
  {
    SettlesWithFirstVerdict(o, Start(o, now), events);
    hide Total;
    RunSnoc(o, Start(o, now), events, e);
  }

  lemma {:induction false} RunSnoc(o: Options, s: State, events: seq<Event>, e: Event)
    ensures Run(o, s, events + [e]) == Step(o, Run(o, s, events), e)
    decreases |events|
  {
    hide Step;
    if events == [] {
      assert (events + [e])[1..] == [];
    } else {
      assert (events + [e])[1..] == events[1..] + [e];
      RunSnoc(o, Step(o, s, events[0]), events[1..], e);
    }
  }

  // ------------------------------------------------------------------- timing

  datatype Timed = Timed(at: nat, event: Event)

  function Events(run: seq<Timed>): seq<Event> {
    if run == [] then [] else [run[0].event] + Events(run[1..])
  }

  /** On an ideal clock the armed timer is never overdue and goes off when it is due. */
  predicate Possible(s: State, now: nat, t: Timed) {
    now <= t.at && Due(s.timer, t.at) && (t.event == Timer ==> s.timer == Some(t.at))
  }

  predicate OnTime(o: Options, s: State, now: nat, run: seq<Timed>)
    decreases |run|
  {
    run == [] || (Possible(s, now, run[0]) && OnTime(o, Step(o, s, run[0].event), run[0].at, run[1..]))
  }

  /** An unsettled call holds the one timer it armed. */
  lemma StepHoldsTimer(o: Options, s: State, e: Event)
    requires Open(o, s)
    ensures var t := Step(o, s, e); (t.settled && t.timer.None?) || (Open(o, t) && t.timer == s.timer)
  {
    hide Total;
    if e.Data? || e.Reply? {
      TotalSnoc(s.messages, e.message);
    }
  }

  lemma {:induction false} NothingAfterTimer(o: Options, s: State, now: nat, run: seq<Timed>)
    requires Open(o, s) && OnTime(o, s, now, run) && run != []
    ensures !Run(o, s, Events(run[..|run| - 1])).settled ==> run[|run| - 1].at <= s.timer.value
    decreases |run|
  {
    var before := run[..|run| - 1];
    if |run| > 1 {
      var t := Step(o, s, run[0].event);
      hide Step, Open;
      StepHoldsTimer(o, s, run[0].event);
      assert before[1..] == run[1..][..|run| - 2];
      assert Events(before)[1..] == Events(before[1..]);
      if t.settled {
        SettledKeepsOutcome(o, t, Events(before[1..]));
      } else {
        NothingAfterTimer(o, t, run[0].at, run[1..]);
      }
    }
  }

  /** On an ideal clock nothing happens to an unsettled call later than `budget` after it
      was made: by then it has settled. */
  lemma SettlesWithinBudget(o: Options, start: nat, run: seq<Timed>)
    requires o.wanted >= 1 && o.maxResultBytes >= 1
    requires OnTime(o, Start(o, start), start, run) && run != []
    ensures !Run(o, Start(o, start), Events(run[..|run| - 1])).settled ==>
              run[|run| - 1].at <= start + o.budget
  {
    NothingAfterTimer(o, Start(o, start), start, run);
  }
}
