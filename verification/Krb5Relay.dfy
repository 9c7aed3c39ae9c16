/** api/krb5_relay.js: resolving, dialling and timing one relayed call. */
module Krb5Relay {
  import opened Bytes
  import opened Krb5Frame
  import opened SsrfRanges
  import opened SsrfGuard
  import opened Timers

  datatype Limits = Limits(connectTimeout: nat, callTimeout: nat, maxReplyBytes: nat)

  datatype Transport = TCP | UDP

  /** What a pre-flight has let through, which is never longer than this. */
  type Payload = p: seq<byte> | |p| <= MAX_REQUEST_BYTES

  function FrameOf(payload: Payload): seq<byte> {
    Pow256To4();
    Framed(payload)
  }

  datatype Code =
    | DnsFailed | DnsTimeout | BlockedAddress
    | ConnectTimeout | CallTimeout | BadFrame(error: FrameError) | ReplyTooBig | SocketError
    | ShortReply(received: nat)

  datatype Outcome = Reply(message: seq<byte>) | Refused(code: Code)

  // ------------------------------------------------------------ the exchange

  /** What can happen to an open socket. A timer event is that timer going off; a
      socket connects at most once, and not after its connect timer has gone off. */
  datatype Event =
    | Connected | Data(chunk: seq<byte>) | Datagram(message: seq<byte>)
    | Failed | Ended | ConnectTimer | CallTimer

  /** One exchange: its promise, its buffer, when each armed timer is due, and everything
      written to the socket so far. */
  datatype Exchange = Exchange(
    payload: Payload,
    written: seq<byte>,
    settled: bool,
    buffer: seq<byte>,
    connectTimer: Option<nat>,
    callTimer: Option<nat>,
    open: bool,
    outcome: Option<Outcome>)

  function Opened(transport: Transport, lim: Limits, payload: Payload, now: nat): Exchange {
    Exchange(payload, if transport.UDP? then payload else [], false, [],
             if transport.TCP? then Some(now + lim.connectTimeout) else None,
             Some(now + lim.callTimeout), true, None)
  }

  function Finish(x: Exchange, o: Outcome): Exchange {
    if x.settled then x
    else x.(settled := true, connectTimer := None, callTimer := None, open := false, outcome := Some(o))
  }

  /** What the relay makes of everything received over TCP so far. */
  function Judge(buffer: seq<byte>, maxReplyBytes: nat): Option<Outcome> {
    if |buffer| > maxReplyBytes + 4 then Some(Refused(ReplyTooBig))
    else match ReadTcpFrame(buffer, maxReplyBytes)
      case Err(e) => Some(Refused(BadFrame(e)))
      case Ok(Complete(message, _)) => Some(Reply(message))
      case Ok(Incomplete(_)) => None
  }

  function Step(x: Exchange, lim: Limits, e: Event): Exchange {
    match e
    case Connected =>
      if x.connectTimer.None? then x else x.(connectTimer := None, written := x.written + FrameOf(x.payload))
    case Data(chunk) =>
      var y := x.(buffer := x.buffer + chunk);
      (match Judge(y.buffer, lim.maxReplyBytes)
       case Some(o) => Finish(y, o)
       case None => y)
    case Datagram(message) =>
      Finish(x, if |message| > lim.maxReplyBytes then Refused(ReplyTooBig) else Reply(message))
    case Failed => Finish(x, Refused(SocketError))
    case Ended => Finish(x, Refused(ShortReply(|x.buffer|)))
    case ConnectTimer => if x.connectTimer.None? then x else Finish(x, Refused(ConnectTimeout))
    case CallTimer => if x.callTimer.None? then x else Finish(x, Refused(CallTimeout))
  }

  /** The handlers of `sendOverTcp` and `sendOverUdp`, over the variables they share. */
  class Socket {
    const lim: Limits
    const payload: Payload
    var written: seq<byte>
    var settled: bool
    var buffer: seq<byte>
    var connectTimer: Option<nat>
    var callTimer: Option<nat>
    var open: bool
    var outcome: Option<Outcome>

    function View(): Exchange
      reads this
    {
      Exchange(payload, written, settled, buffer, connectTimer, callTimer, open, outcome)
    }

    constructor (transport: Transport, lim: Limits, payload: Payload, now: nat)
      ensures this.lim == lim && View() == Opened(transport, lim, payload, now)
    {
      this.lim, this.payload := lim, payload;
      written := if transport.UDP? then payload else [];
      settled, buffer, open, outcome := false, [], true, None;
      connectTimer := if transport.TCP? then Some(now + lim.connectTimeout) else None;
      callTimer := Some(now + lim.callTimeout);
    }

    method Settle(o: Outcome)
      modifies this
      ensures View() == Finish(old(View()), o)
    {
      if settled {
        return;
      }
      settled := true;
      if connectTimer.Some? {
        connectTimer := None;
      }
      callTimer := None;
      open := false;
      outcome := Some(o);
    }

    method OnConnect()
      requires connectTimer.Some?
      modifies this
      ensures View() == Step(old(View()), lim, Connected)
    {
      connectTimer := None;
      var frame := FrameForTcp(payload);
      written := written + frame[..];
    }

    method OnData(chunk: seq<byte>)
      modifies this
      ensures View() == Step(old(View()), lim, Data(chunk))
    {
      buffer := buffer + chunk;
      if |buffer| > lim.maxReplyBytes + 4 {
        Settle(Refused(ReplyTooBig));
        return;
      }
      match ReadTcpFrame(buffer, lim.maxReplyBytes) {
        case Err(e) => Settle(Refused(BadFrame(e)));
        case Ok(Complete(message, _)) => Settle(Reply(message));
        case Ok(Incomplete(_)) =>
      }
    }

    method OnDatagram(message: seq<byte>)
      modifies this
      ensures View() == Step(old(View()), lim, Datagram(message))
    {
      if |message| > lim.maxReplyBytes {
        Settle(Refused(ReplyTooBig));
        return;
      }
      Settle(Reply(message));
    }

    method OnError()
      modifies this
      ensures View() == Step(old(View()), lim, Failed)
    {
      Settle(Refused(SocketError));
    }

    method OnEnd()
      modifies this
      ensures View() == Step(old(View()), lim, Ended)
    {
      Settle(Refused(ShortReply(|buffer|)));
    }

    method OnConnectTimer()
      requires connectTimer.Some?
      modifies this
      ensures View() == Step(old(View()), lim, ConnectTimer)
    {
      Settle(Refused(ConnectTimeout));
    }

    method OnCallTimer()
      requires callTimer.Some?
      modifies this
      ensures View() == Step(old(View()), lim, CallTimer)
    {
      Settle(Refused(CallTimeout));
    }
  }

  function Run(x: Exchange, lim: Limits, events: seq<Event>): Exchange
    decreases |events|
  {
    if events == [] then x else Run(Step(x, lim, events[0]), lim, events[1..])
  }

  /** Settlement is one-way, and a settled exchange holds no timer and no socket. */
  ghost predicate Sound(x: Exchange) {
    && (x.settled <==> x.outcome.Some?)
    && (x.settled <==> !x.open)
    && (x.settled <==> x.callTimer.None?)
    && (x.settled ==> x.connectTimer.None?)
  }

  /** The outcome read off the list of events alone: the first one that is terminal
      where it stands. No flag guards it. */
  function FirstVerdict(lim: Limits, buffer: seq<byte>, connecting: bool, events: seq<Event>): Option<Outcome>
    decreases |events|
  {
    if events == [] then None
    else
      var rest := events[1..];
      match events[0]
      case Connected => FirstVerdict(lim, buffer, false, rest)
      case Data(chunk) =>
        var verdict := Judge(buffer + chunk, lim.maxReplyBytes);
        if verdict.Some? then verdict else FirstVerdict(lim, buffer + chunk, connecting, rest)
      case Datagram(m) => Some(if |m| > lim.maxReplyBytes then Refused(ReplyTooBig) else Reply(m))
      case Failed => Some(Refused(SocketError))
      case Ended => Some(Refused(ShortReply(|buffer|)))
      case ConnectTimer =>
        if connecting then Some(Refused(ConnectTimeout)) else FirstVerdict(lim, buffer, connecting, rest)
      case CallTimer => Some(Refused(CallTimeout))
  }

  /** Whatever order the events come in, an exchange settles once, with the verdict of
      the first terminal event, and then nothing it armed is left. */
  lemma {:induction false} SettlesWithFirstVerdict(x: Exchange, lim: Limits, events: seq<Event>)
    requires Sound(x)
    ensures Sound(Run(x, lim, events))
    ensures Run(x, lim, events).outcome ==
            if x.settled then x.outcome else FirstVerdict(lim, x.buffer, x.connectTimer.Some?, events)
    decreases |events|
  {
    if events != [] {
      SettlesWithFirstVerdict(Step(x, lim, events[0]), lim, events[1..]);
    }
  }

  // ------------------------------------------------------ what is written

  /** The connection comes up while nothing has decided the exchange yet. */
  ghost predicate ConnectsInTime(lim: Limits, events: seq<Event>) {
    exists i :: 0 <= i < |events| && events[i] == Connected && FirstVerdict(lim, [], true, events[..i]).None?
  }

  /** A message behind its length in four bytes, most significant first (section 7.2.2 of
      RFC 4120). */
  ghost predicate IsFrameOf(written: seq<byte>, payload: seq<byte>) {
    |written| == 4 + |payload| && Value(written[..4]) == |payload| && written[4..] == payload
  }

  lemma FrameIsFrame(payload: Payload)
    ensures IsFrameOf(FrameOf(payload), payload)
  {
    Pow256To4();
    hide Spell, Pow, Value;
    assert FrameOf(payload)[..4] == Spell(|payload|, 4);
  }

  /** An exchange that has not connected, from any buffer. */
  lemma {:induction false} WritesWhenConnected(x: Exchange, lim: Limits, events: seq<Event>)
    requires Sound(x) && !x.settled && x.connectTimer.Some? && x.written == []
    ensures (exists i :: 0 <= i < |events| && events[i] == Connected &&
                         FirstVerdict(lim, x.buffer, true, events[..i]).None?) ==>
              Run(x, lim, events).written == FrameOf(x.payload)
    ensures !(exists i :: 0 <= i < |events| && events[i] == Connected &&
                          FirstVerdict(lim, x.buffer, true, events[..i]).None?) ==>
              Run(x, lim, events).written == []
    decreases |events|
  {
    if events != [] {
      hide FrameOf, Judge;
      var e, y := events[0], Step(x, lim, events[0]);
      if e == Connected {
        assert FirstVerdict(lim, x.buffer, true, events[..0]).None?;
        assert [] + FrameOf(x.payload) == FrameOf(x.payload);
        WritesNoMore(y, lim, events[1..]);
      } else if y.settled {
        WritesNoMore(y, lim, events[1..]);
        forall i | 0 < i < |events|
          ensures FirstVerdict(lim, x.buffer, true, events[..i]).Some?
        {
          assert events[..i][0] == e;
        }
      } else {
        WritesWhenConnected(y, lim, events[1..]);
        forall i | 0 < i <= |events|
          ensures FirstVerdict(lim, x.buffer, true, events[..i]) ==
                  FirstVerdict(lim, y.buffer, true, events[1..][..i - 1])
        {
          assert events[..i][0] == e && events[..i][1..] == events[1..][..i - 1];
        }
        forall i | 0 < i < |events|
          ensures events[i] == events[1..][i - 1]
        {
        }
        if i :| 0 <= i < |events| && events[i] == Connected && FirstVerdict(lim, x.buffer, true, events[..i]).None? {
          assert events[1..][i - 1] == Connected;
        }
        if j :| 0 <= j < |events[1..]| && events[1..][j] == Connected &&
                FirstVerdict(lim, y.buffer, true, events[1..][..j]).None? {
          assert events[j + 1] == Connected && FirstVerdict(lim, x.buffer, true, events[..j + 1]).None?;
        }
      }
    }
  }

  lemma {:induction false} WritesNoMore(x: Exchange, lim: Limits, events: seq<Event>)
    requires x.connectTimer.None?
    ensures Run(x, lim, events).written == x.written && Run(x, lim, events).connectTimer.None?
    decreases |events|
  {
    if events != [] {
      WritesNoMore(Step(x, lim, events[0]), lim, events[1..]);
    }
  }

  /** Over TCP the request goes out, once and framed, exactly when the connection comes up
      before anything has decided the exchange; over UDP it goes out at once. */
  lemma WritesExactly(transport: Transport, lim: Limits, payload: Payload, now: nat, events: seq<Event>)
    ensures var written := Run(Opened(transport, lim, payload, now), lim, events).written;
            if transport.UDP? then written == payload
            else if ConnectsInTime(lim, events) then IsFrameOf(written, payload)
            else written == []
  {
    var x := Opened(transport, lim, payload, now);
    if transport.UDP? {
      WritesNoMore(x, lim, events);
    } else {
      FrameIsFrame(payload);
      hide FrameOf, FirstVerdict, IsFrameOf;
      WritesWhenConnected(x, lim, events);
    }
  }

  // --------------------------------------------------- chunking independence

  function Feed(cuts: seq<seq<byte>>): seq<Event> {
    if cuts == [] then [] else [Data(cuts[0])] + Feed(cuts[1..])
  }

  /** One reading of the whole stream, followed by the far end closing. */
  function WholeReading(stream: seq<byte>, maxReplyBytes: nat): Outcome {
    match ReadTcpFrame(stream, maxReplyBytes)
    case Err(e) => Refused(BadFrame(e))
    case Ok(Complete(message, _)) => Reply(message)
    case Ok(Incomplete(_)) => Refused(ShortReply(|stream|))
  }

  /** How many bytes of a decided stream it takes to decide it. */
  function DecidingLength(stream: seq<byte>, maxReplyBytes: nat): (n: nat)
    requires Decided(ReadTcpFrame(stream, maxReplyBytes))
    ensures n <= |stream|
  {
    match ReadTcpFrame(stream, maxReplyBytes)
    case Err(_) => 4
    case Ok(frame) => frame.consumed
  }

  /** How much has arrived once a chunk boundary reaches `n` bytes. */
  function ArrivedAt(had: nat, cuts: seq<seq<byte>>, n: nat): nat
    requires had + |Flatten(cuts)| >= n
    decreases |cuts|
  {
    if had >= n || cuts == [] then had else ArrivedAt(had + |cuts[0]|, cuts[1..], n)
  }

  lemma DecidedFromThere(stream: seq<byte>, n: nat, maxReplyBytes: nat)
    requires Decided(ReadTcpFrame(stream, maxReplyBytes)) && n <= |stream|
    ensures Decided(ReadTcpFrame(stream[..n], maxReplyBytes)) <==>
            DecidingLength(stream, maxReplyBytes) <= n
    ensures Decided(ReadTcpFrame(stream[..n], maxReplyBytes)) ==>
            ReadTcpFrame(stream[..n], maxReplyBytes) == ReadTcpFrame(stream, maxReplyBytes)
  {
    if n >= 4 {
      assert stream[..n][..4] == stream[..4];
      var d := Value(stream[..4]);
      if 4 + d <= n { assert stream[..n][4..4 + d] == stream[4..4 + d]; }
    }
  }

  /** For every stream and every way of cutting it: the relay gives the answer one
      reading of the whole stream would give, with the same error, exactly unless the
      chunk that decides it also carries the buffer past the cap. */
  lemma {:induction false} CutsDoNotMatter(lim: Limits, had: seq<byte>, connecting: bool, cuts: seq<seq<byte>>)
    requires !Decided(ReadTcpFrame(had, lim.maxReplyBytes))
    ensures
      var stream := had + Flatten(cuts);
      var max := lim.maxReplyBytes;
      FirstVerdict(lim, had, connecting, Feed(cuts) + [Ended]) ==
      Some(if Decided(ReadTcpFrame(stream, max)) &&
              ArrivedAt(|had|, cuts, DecidingLength(stream, max)) > max + 4
           then Refused(ReplyTooBig) else WholeReading(stream, max))
    decreases |cuts|
  {
    var stream, max := had + Flatten(cuts), lim.maxReplyBytes;
    if cuts == [] {
      assert stream == had && Feed(cuts) + [Ended] == [Ended];
    } else {
      var now := had + cuts[0];
      assert stream == now + Flatten(cuts[1..]) && stream[..|now|] == now && stream[..|had|] == had;
      assert (Feed(cuts) + [Ended])[1..] == Feed(cuts[1..]) + [Ended];
      if Decided(ReadTcpFrame(stream, max)) {
        DecidedFromThere(stream, |had|, max);
        DecidedFromThere(stream, |now|, max);
      }
      if Decided(ReadTcpFrame(now, max)) {
        FrameStable(now, Flatten(cuts[1..]), max);
        assert ArrivedAt(|had|, cuts, DecidingLength(stream, max)) == |now|;
      } else {
        CutsDoNotMatter(lim, now, connecting, cuts[1..]);
      }
    }
  }

  /** Up to the cap plus its four-byte prefix, how TCP cut the stream never shows. */
  lemma ChunkingIndependence(lim: Limits, payload: Payload, now: nat, cuts: seq<seq<byte>>)
    requires |Flatten(cuts)| <= lim.maxReplyBytes + 4
    ensures Run(Opened(TCP, lim, payload, now), lim, Feed(cuts) + [Ended]).outcome ==
            Some(WholeReading(Flatten(cuts), lim.maxReplyBytes))
  {
    SettlesWithFirstVerdict(Opened(TCP, lim, payload, now), lim, Feed(cuts) + [Ended]);
    CutsDoNotMatter(lim, [], true, cuts);
    assert [] + Flatten(cuts) == Flatten(cuts);
    var stream, max := Flatten(cuts), lim.maxReplyBytes;
    if Decided(ReadTcpFrame(stream, max)) {
      ArrivedWithin(0, cuts, DecidingLength(stream, max));
    }
  }

  lemma {:induction false} ArrivedWithin(had: nat, cuts: seq<seq<byte>>, n: nat)
    requires had + |Flatten(cuts)| >= n
    ensures ArrivedAt(had, cuts, n) <= had + |Flatten(cuts)|
    decreases |cuts|
  {
    if had < n && cuts != [] {
      ArrivedWithin(had + |cuts[0]|, cuts[1..], n);
    }
  }

  /** Past the cap it does show: one byte after a complete reply is dropped when it
      comes on its own and refuses the reply when it comes in the same chunk. */
  lemma PastTheCapCutsMatter(lim: Limits, payload: Payload, reply: seq<byte>, extra: byte, now: nat)
    requires 2 <= |reply| == lim.maxReplyBytes < 0x8000_0000 && |reply| < Pow(256, 4)
    ensures var x := Opened(TCP, lim, payload, now);
            && Run(x, lim, Feed([Framed(reply), [extra]]) + [Ended]).outcome == Some(Reply(reply))
            && Run(x, lim, Feed([Framed(reply) + [extra]]) + [Ended]).outcome == Some(Refused(ReplyTooBig))
  {
    var x := Opened(TCP, lim, payload, now);
    FrameRoundTrip(reply, [], lim.maxReplyBytes);
    assert [] + Framed(reply) == Framed(reply) + [] == Framed(reply);
    var apart, together := Feed([Framed(reply), [extra]]) + [Ended], Feed([Framed(reply) + [extra]]) + [Ended];
    SettlesWithFirstVerdict(x, lim, apart);
    SettlesWithFirstVerdict(x, lim, together);
    assert apart[0] == Data(Framed(reply)) && together[0] == Data(Framed(reply) + [extra]);
    assert [] + (Framed(reply) + [extra]) == Framed(reply) + [extra];
  }

  // ------------------------------------------------------------ the whole call

  datatype Resolved = Allowed(target: string) | Rejected(code: Code)

  /** What the lookup calls back with: an error, a list of addresses, or something that is
      no list and is taken for the only entry of one, which may be nothing at all. */
  datatype LookupAnswer = LookupFailed | Addresses(list: seq<string>) | NotAList(entry: Option<string>)

  /** The addresses an answer holds. Nothing at all has no address to read, so it makes the
      callback throw just as a list with no first entry does. */
  function Listed(answer: LookupAnswer): seq<string> {
    match answer
    case LookupFailed => []
    case Addresses(list) => list
    case NotAList(entry) => if entry.Some? then [entry.value] else []
  }

  /** The promise of `resolveAllowedAddress`. `verdict` stays None for good when the
      callback throws. */
  datatype Resolution = Resolution(settled: bool, deadline: Option<nat>, verdict: Option<Resolved>)

  predicate Blocked(list: seq<string>, blocked: string -> bool) {
    exists i :: 0 <= i < |list| && blocked(list[i])
  }

  function StartLookup(host: string, literal: bool, blocked: string -> bool, lim: Limits, now: nat): Resolution {
    if literal then
      Resolution(true, None, Some(if blocked(host) then Rejected(BlockedAddress) else Allowed(host)))
    else
      Resolution(false, Some(now + lim.connectTimeout), None)
  }

  /** What the callback makes of an answer; None where it throws. */
  function Judged(answer: LookupAnswer, blocked: string -> bool): Option<Resolved> {
    var list := Listed(answer);
    if answer.LookupFailed? then Some(Rejected(DnsFailed))
    else if Blocked(list, blocked) then Some(Rejected(BlockedAddress))
    else if list == [] then None
    else Some(Allowed(list[0]))
  }

  function LookedUp(r: Resolution, answer: LookupAnswer, blocked: string -> bool): Resolution {
    if r.settled then r else Resolution(true, None, Judged(answer, blocked))
  }

  function DeadlinePassed(r: Resolution): Resolution {
    if r.settled then r else Resolution(true, None, Some(Rejected(DnsTimeout)))
  }

  /** The closure of `resolveAllowedAddress`. */
  class Lookup {
    const blocked: string -> bool
    var settled: bool
    var deadline: Option<nat>
    var verdict: Option<Resolved>

    function View(): Resolution
      reads this
    {
      Resolution(settled, deadline, verdict)
    }

    constructor (host: string, literal: bool, blocked: string -> bool, lim: Limits, now: nat)
      ensures this.blocked == blocked && View() == StartLookup(host, literal, blocked, lim, now)
    {
      this.blocked := blocked;
      if literal {
        settled, deadline := true, None;
        verdict := Some(if blocked(host) then Rejected(BlockedAddress) else Allowed(host));
      } else {
        settled, deadline, verdict := false, Some(now + lim.connectTimeout), None;
      }
    }

    method OnAnswer(answer: LookupAnswer)
      modifies this
      ensures View() == LookedUp(old(View()), answer, blocked)
    {
      if settled {
        return;
      }
      settled := true;
      deadline := None;
      verdict := None;
      if answer.LookupFailed? {
        verdict := Some(Rejected(DnsFailed));
        return;
      }
      var list := Listed(answer);
      for i := 0 to |list|
        invariant verdict == None && settled && deadline == None
        invariant !Blocked(list[..i], blocked)
      {
        if blocked(list[i]) {
          verdict := Some(Rejected(BlockedAddress));
          return;
        }
      }
      assert list[..|list|] == list;
      if list != [] {
        verdict := Some(Allowed(list[0]));
      }
    }

    method OnDeadline()
      modifies this
      ensures View() == DeadlinePassed(old(View()))
    {
      if settled {
        return;
      }
      settled := true;
      deadline := None;
      verdict := Some(Rejected(DnsTimeout));
    }
  }

  /** Everything that can happen to a call once its payload and port have passed. */
  datatype CallEvent = Answered(answer: LookupAnswer) | LookupDeadline | OnSocket(event: Event)

  datatype Call = Call(lookup: Resolution, exchange: Option<Exchange>)

  datatype Request = Request(host: string, literal: bool, transport: Transport, payload: Payload,
                             blocked: string -> bool, lim: Limits)

  /** `await`: the exchange is opened the moment the address is known. */
  function Proceed(q: Request, c: Call, now: nat): Call {
    if c.exchange.None? && c.lookup.verdict.Some? && c.lookup.verdict.value.Allowed?
    then c.(exchange := Some(Opened(q.transport, q.lim, q.payload, now)))
    else c
  }

  function Begin(q: Request, now: nat): Call {
    Proceed(q, Call(StartLookup(q.host, q.literal, q.blocked, q.lim, now), None), now)
  }

  function CallStep(q: Request, c: Call, e: CallEvent, now: nat): Call {
    match e
    case Answered(answer) => Proceed(q, c.(lookup := LookedUp(c.lookup, answer, q.blocked)), now)
    case LookupDeadline => c.(lookup := DeadlinePassed(c.lookup))
    case OnSocket(event) =>
      if c.exchange.None? then c else c.(exchange := Some(Step(c.exchange.value, q.lim, event)))
  }

  function Answer(c: Call): Option<Outcome> {
    match c.lookup.verdict
    case None => None
    case Some(Rejected(code)) => Some(Refused(code))
    case Some(Allowed(_)) => if c.exchange.None? then None else c.exchange.value.outcome
  }

  datatype Timed = Timed(at: nat, event: CallEvent)

  function CallRun(q: Request, c: Call, run: seq<Timed>): Call
    decreases |run|
  {
    if run == [] then c else CallRun(q, CallStep(q, c, run[0].event, run[0].at), run[1..])
  }

  /** The callback threw, so the promise is left pending with its deadline already
      cleared. */
  predicate Wedged(c: Call) {
    c.lookup.settled && c.lookup.verdict.None?
  }

  ghost predicate CallSound(q: Request, c: Call) {
    && (c.lookup.verdict.Some? ==> c.lookup.settled)
    && (c.lookup.settled <==> c.lookup.deadline.None?)
    && (c.exchange.Some? <==> c.lookup.verdict.Some? && c.lookup.verdict.value.Allowed?)
    && (c.exchange.Some? ==> Sound(c.exchange.value))
  }

  predicate Armed(c: Call) {
    || c.lookup.deadline.Some?
    || (c.exchange.Some? && (c.exchange.value.connectTimer.Some? || c.exchange.value.callTimer.Some?))
  }

  lemma StepKeeps(q: Request, c: Call, e: CallEvent, now: nat)
    requires CallSound(q, c)
    ensures var d := CallStep(q, c, e, now);
            && CallSound(q, d)
            && (c.lookup.settled ==> d.lookup == c.lookup)
            && (Answer(c).Some? ==> Answer(d) == Answer(c))
  {
  }

  /** Over every run: an answer once given never changes and leaves no timer armed, and
      a call without an answer either still holds an armed timer or was wedged by an
      empty lookup answer. */
  lemma {:induction false} EveryRun(q: Request, c: Call, run: seq<Timed>)
    requires CallSound(q, c)
    ensures var d := CallRun(q, c, run);
            && CallSound(q, d)
            && (c.lookup.settled ==> d.lookup == c.lookup)
            && (Answer(c).Some? ==> Answer(d) == Answer(c))
            && (Answer(d).Some? ==> !Armed(d))
            && (Answer(d).None? ==> Armed(d) || Wedged(d))
    decreases |run|
  {
    if run != [] {
      StepKeeps(q, c, run[0].event, run[0].at);
      EveryRun(q, CallStep(q, c, run[0].event, run[0].at), run[1..]);
    }
  }

  /** A lookup answer of this run, every address of which the policy let through. */
  ghost predicate PassedAnswer(q: Request, run: seq<Timed>, i: nat) {
    && i < |run| && run[i].event.Answered?
    && match run[i].event.answer
       case LookupFailed => false
       case NotAList(entry) => entry.Some? && !q.blocked(entry.value)
       case Addresses(list) => list != [] && forall j :: 0 <= j < |list| ==> !q.blocked(list[j])
  }

  /** The first address of an answer. */
  function FirstOf(answer: LookupAnswer): string
    requires (answer.Addresses? && answer.list != []) || (answer.NotAList? && answer.entry.Some?)
  {
    if answer.Addresses? then answer.list[0] else answer.entry.value
  }

  lemma AllowedPassed(answer: LookupAnswer, blocked: string -> bool)
    requires Judged(answer, blocked).Some? && Judged(answer, blocked).value.Allowed?
    ensures answer.Addresses? ==> answer.list != [] && forall j :: 0 <= j < |answer.list| ==> !blocked(answer.list[j])
    ensures answer.NotAList? ==> answer.entry.Some? && !blocked(answer.entry.value)
    ensures !answer.LookupFailed? && Judged(answer, blocked).value.target == FirstOf(answer)
  {
    if answer.NotAList? && answer.entry.Some? {
      assert [answer.entry.value][0] == answer.entry.value;
    }
  }

  lemma {:induction false} DialledFromAnswer(q: Request, c: Call, run: seq<Timed>) returns (i: nat)
    requires CallSound(q, c) && !c.lookup.settled
    ensures var v := CallRun(q, c, run).lookup.verdict;
            v.Some? && v.value.Allowed? ==>
              PassedAnswer(q, run, i) && v.value.target == FirstOf(run[i].event.answer)
    decreases |run|
  {
    i := 0;
    if run != [] {
      var d := CallStep(q, c, run[0].event, run[0].at);
      if d.lookup.settled {
        EveryRun(q, d, run[1..]);
        if d.exchange.Some? { AllowedPassed(run[0].event.answer, q.blocked); }
      } else {
        i := DialledFromAnswer(q, d, run[1..]);
        i := i + 1;
      }
    }
  }

  /** On every run the socket is opened only to an address the policy let through: the
      literal asked for, or the first entry of an answer no entry of which is blocked. */
  lemma DialsOnlyWhatPassed(q: Request, now: nat, run: seq<Timed>)
    ensures var d := CallRun(q, Begin(q, now), run);
            d.exchange.Some? ==>
              && d.lookup.verdict.Some? && d.lookup.verdict.value.Allowed?
              && var target := d.lookup.verdict.value.target;
              && !q.blocked(target)
              && (if q.literal then target == q.host
                  else exists i: nat :: PassedAnswer(q, run, i) && target == FirstOf(run[i].event.answer))
  {
    var c := Begin(q, now);
    EveryRun(q, c, run);
    if !q.literal {
      var i := DialledFromAnswer(q, c, run);
    }
  }

  // ------------------------------------------- the outcome of a whole call

  /** The first thing the name lookup does; whatever it does after that is dropped. */
  function FirstLookup(run: seq<Timed>): Option<CallEvent>
    decreases |run|
  {
    if run == [] then None
    else if run[0].event.OnSocket? then FirstLookup(run[1..])
    else Some(run[0].event)
  }

  function SocketEvents(run: seq<Timed>): seq<Event>
    decreases |run|
  {
    if run == [] then []
    else (if run[0].event.OnSocket? then [run[0].event.event] else []) + SocketEvents(run[1..])
  }

  /** The socket events that come once the lookup has done its first thing. */
  function AfterLookup(run: seq<Timed>): seq<Event>
    decreases |run|
  {
    if run == [] then []
    else if run[0].event.OnSocket? then AfterLookup(run[1..])
    else SocketEvents(run[1..])
  }

  function ExchangeVerdict(q: Request, events: seq<Event>): Option<Outcome> {
    FirstVerdict(q.lim, [], q.transport.TCP?, events)
  }

  /** The outcome of a call read off the list of its events alone, with no flag, timer or
      promise: the lookup's first event decides whether there is an exchange, and the first
      terminal event after that decides the exchange. */
  function CallVerdict(q: Request, run: seq<Timed>): Option<Outcome> {
    if q.literal then
      (if q.blocked(q.host) then Some(Refused(BlockedAddress)) else ExchangeVerdict(q, SocketEvents(run)))
    else
      match FirstLookup(run)
      case None => None
      case Some(LookupDeadline) => Some(Refused(DnsTimeout))
      case Some(OnSocket(_)) => None
      case Some(Answered(answer)) => AnswerVerdict(q, answer, AfterLookup(run))
  }

  /** What a lookup's answer makes of a call: a failure or one blocked address refuses it,
      nothing at all leaves it pending, and otherwise the events after it decide. */
  function AnswerVerdict(q: Request, answer: LookupAnswer, later: seq<Event>): Option<Outcome> {
    match answer
    case LookupFailed => Some(Refused(DnsFailed))
    case NotAList(None) => None
    case NotAList(Some(only)) => if q.blocked(only) then Some(Refused(BlockedAddress)) else ExchangeVerdict(q, later)
    case Addresses(list) =>
      if exists i :: 0 <= i < |list| && q.blocked(list[i]) then Some(Refused(BlockedAddress))
      else if list == [] then None
      else ExchangeVerdict(q, later)
  }

  lemma JudgedGives(q: Request, answer: LookupAnswer, later: seq<Event>)
    ensures AnswerVerdict(q, answer, later) ==
            match Judged(answer, q.blocked)
            case None => None
            case Some(Rejected(code)) => Some(Refused(code))
            case Some(Allowed(_)) => ExchangeVerdict(q, later)
  {
    hide ExchangeVerdict;
    if answer.NotAList? && answer.entry.Some? {
      assert q.blocked(answer.entry.value) <==> q.blocked([answer.entry.value][0]);
    }
  }

  /** Once there is an exchange, only its own events touch a call. */
  lemma {:induction false} OnlySocketEvents(q: Request, c: Call, run: seq<Timed>)
    requires CallSound(q, c) && c.exchange.Some?
    ensures CallRun(q, c, run) == Call(c.lookup, Some(Run(c.exchange.value, q.lim, SocketEvents(run))))
    decreases |run|
  {
    if run != [] {
      var e, rest := run[0].event, SocketEvents(run[1..]);
      StepKeeps(q, c, e, run[0].at);
      hide Step;
      OnlySocketEvents(q, CallStep(q, c, e, run[0].at), run[1..]);
      if e.OnSocket? {
        assert ([e.event] + rest)[1..] == rest;
      } else {
        assert [] + rest == rest;
      }
    }
  }

  /** A call that has just got its exchange. */
  lemma ExchangeAnswers(q: Request, c: Call, now: nat, run: seq<Timed>)
    requires CallSound(q, c) && c.exchange == Some(Opened(q.transport, q.lim, q.payload, now))
    ensures Answer(CallRun(q, c, run)) == ExchangeVerdict(q, SocketEvents(run))
  {
    OnlySocketEvents(q, c, run);
    SettlesWithFirstVerdict(c.exchange.value, q.lim, SocketEvents(run));
  }

  /** A call waiting for its lookup. */
  lemma {:induction false} LookupDecides(q: Request, c: Call, run: seq<Timed>)
    requires CallSound(q, c) && !q.literal && !c.lookup.settled
    ensures Answer(CallRun(q, c, run)) == CallVerdict(q, run)
    ensures Wedged(CallRun(q, c, run)) <==>
            FirstLookup(run).Some? && FirstLookup(run).value.Answered? &&
            Judged(FirstLookup(run).value.answer, q.blocked).None?
    decreases |run|
  {
    if run != [] {
      hide Step, Judged, Run, FirstVerdict, SocketEvents, AnswerVerdict;
      var e, now := run[0].event, run[0].at;
      var d := CallStep(q, c, e, now);
      StepKeeps(q, c, e, now);
      if e.OnSocket? {
        LookupDecides(q, d, run[1..]);
      } else {
        EveryRun(q, d, run[1..]);
        if e.Answered? { JudgedGives(q, e.answer, AfterLookup(run)); }
        if d.exchange.Some? {
          ExchangeAnswers(q, d, now, run[1..]);
        }
      }
    }
  }

  /** For every order of lookup callback, lookup deadline, socket events and timers: a call
      settles once, with the outcome the scan finds first. A deadline that comes before the
      callback is the outcome whatever the callback then brings, and an allowed address
      leaves the outcome to the socket events after it and to nothing else. */
  lemma CallSettlesWithFirstVerdict(q: Request, now: nat, run: seq<Timed>)
    ensures var d := CallRun(q, Begin(q, now), run);
            && Answer(d) == CallVerdict(q, run)
            && (Answer(d).Some? ==> !Armed(d))
            && (Answer(d).None? ==> Armed(d) || Wedged(d))
  {
    hide CallVerdict;
    var c := Begin(q, now);
    EveryRun(q, c, run);
    if !q.literal {
      LookupDecides(q, c, run);
    } else {
      LiteralDecides(q, now, run);
    }
  }

  lemma LiteralDecides(q: Request, now: nat, run: seq<Timed>)
    requires q.literal
    ensures Answer(CallRun(q, Begin(q, now), run)) == CallVerdict(q, run)
  {
    hide CallRun;
    var c := Begin(q, now);
    EveryRun(q, c, run);
    if !q.blocked(q.host) {
      ExchangeAnswers(q, c, now, run);
    }
  }

  /** The rule that every path answers fails for exactly the runs on which a name's lookup
      first calls back without an error and with nothing: an empty list, or no value. */
  lemma WedgedExactly(q: Request, now: nat, run: seq<Timed>)
    ensures Wedged(CallRun(q, Begin(q, now), run)) <==>
            !q.literal &&
            (FirstLookup(run) == Some(Answered(Addresses([]))) || FirstLookup(run) == Some(Answered(NotAList(None))))
  {
    hide CallRun, FirstLookup;
    var c := Begin(q, now);
    if q.literal {
      EveryRun(q, c, run);
    } else {
      LookupDecides(q, c, run);
    }
  }

  // ------------------------------------------------ what reaches the wire

  datatype Purpose = Kdc | Service

  /** A port allowlist; `any` is spelled out. */
  datatype Ports = AnyPort | Only(ports: set<int>)

  datatype Refusal = NotKerberos(error: FrameError) | ServiceNotEnabled | PortNotAllowed

  /** The checks `send` makes before anything is resolved, the payload's shape first. */
  function Admit(purpose: Purpose, payload: seq<byte>, port: int, ports: Ports): (r: Result<Payload, Refusal>)
    ensures r.Ok? ==> r.value == payload
  {
    var preflight := if purpose.Service? then AssertServiceRequest(payload) else AssertKerberosRequest(payload);
    if preflight.Err? then Err(NotKerberos(preflight.error))
    else if ports.AnyPort? then Ok(payload)
    else if purpose.Service? && ports.ports == {} then Err(ServiceNotEnabled)
    else if port !in ports.ports then Err(PortNotAllowed)
    else Ok(payload)
  }

  ghost predicate OneRequest(purpose: Purpose, payload: seq<byte>) {
    && |payload| <= 65536
    && if purpose.Service? then ServiceShape(payload) else IsElement(0x6a, payload) || IsElement(0x6c, payload)
  }

  lemma AdmitsExactly(purpose: Purpose, payload: seq<byte>, port: int, ports: Ports)
    ensures Admit(purpose, payload, port, ports).Ok? <==>
            OneRequest(purpose, payload) && (ports.AnyPort? || port in ports.ports)
    ensures match Admit(purpose, payload, port, ports)
            case Ok(admitted) => admitted == payload
            case Err(NotKerberos(_)) => !OneRequest(purpose, payload)
            case Err(ServiceNotEnabled) => OneRequest(purpose, payload) && purpose.Service? && ports == Only({})
            case Err(PortNotAllowed) =>
              OneRequest(purpose, payload) && ports.Only? && port !in ports.ports && (purpose.Kdc? || ports.ports != {})
  {
    ServiceAcceptsExactly(payload);
    KdcAcceptsExactly(payload);
  }

  ghost predicate WroteOnlyRequest(q: Request, x: Exchange) {
    && x.payload == q.payload
    && if q.transport.UDP? then x.written == q.payload && x.connectTimer.None?
       else x.written == [] || (x.written == FrameOf(q.payload) && x.connectTimer.None?)
  }

  lemma {:induction false} WritesOnlyRequest(q: Request, c: Call, run: seq<Timed>)
    requires c.exchange.Some? ==> WroteOnlyRequest(q, c.exchange.value)
    ensures var d := CallRun(q, c, run); d.exchange.Some? ==> WroteOnlyRequest(q, d.exchange.value)
    decreases |run|
  {
    if run != [] {
      hide FrameOf;
      WritesOnlyRequest(q, CallStep(q, c, run[0].event, run[0].at), run[1..]);
    }
  }

  /** End to end: over every run of an admitted call, everything ever written goes to an
      address the policy let through, and is one Kerberos request of the kind the endpoint
      is for: over TCP nothing or its frame, over UDP the datagram itself. */
  lemma SendsOneRequestToAllowedAddress(q: Request, purpose: Purpose, port: int, ports: Ports,
                                        now: nat, run: seq<Timed>)
    requires Admit(purpose, q.payload, port, ports).Ok?
    ensures var d := CallRun(q, Begin(q, now), run);
            d.exchange.Some? ==>
              && OneRequest(purpose, q.payload)
              && (ports.AnyPort? || port in ports.ports)
              && WroteOnlyRequest(q, d.exchange.value)
              && d.lookup.verdict.Some? && d.lookup.verdict.value.Allowed?
              && !q.blocked(d.lookup.verdict.value.target)
  {
    hide OneRequest, CallRun;
    AdmitsExactly(purpose, q.payload, port, ports);
    WritesOnlyRequest(q, Begin(q, now), run);
    DialsOnlyWhatPassed(q, now, run);
  }

  /** The socket events of a call that reach its exchange. */
  function Heard(q: Request, run: seq<Timed>): seq<Event> {
    if q.literal then SocketEvents(run) else AfterLookup(run)
  }

  lemma {:induction false} HeardAfterLookup(q: Request, c: Call, run: seq<Timed>)
    requires CallSound(q, c) && !q.literal && !c.lookup.settled
    ensures var d := CallRun(q, c, run);
            d.exchange.Some? ==>
              exists at :: d.exchange == Some(Run(Opened(q.transport, q.lim, q.payload, at), q.lim, AfterLookup(run)))
    decreases |run|
  {
    if run != [] {
      hide Step, Judged, Run, SocketEvents;
      var e, now := run[0].event, run[0].at;
      var d := CallStep(q, c, e, now);
      StepKeeps(q, c, e, now);
      if e.OnSocket? {
        HeardAfterLookup(q, d, run[1..]);
      } else {
        EveryRun(q, d, run[1..]);
        if d.exchange.Some? {
          OnlySocketEvents(q, d, run[1..]);
        }
      }
    }
  }

  /** Over every run of a call: what has been written on its socket, if it has one, is the
      request, framed over TCP, exactly when it should have been. */
  lemma CallWritesExactly(q: Request, now: nat, run: seq<Timed>)
    ensures var d := CallRun(q, Begin(q, now), run);
            d.exchange.Some? ==>
              var written := d.exchange.value.written;
              if q.transport.UDP? then written == q.payload
              else if ConnectsInTime(q.lim, Heard(q, run)) then IsFrameOf(written, q.payload)
              else written == []
  {
    hide IsFrameOf, ConnectsInTime;
    var c := Begin(q, now);
    var d := CallRun(q, c, run);
    if d.exchange.Some? {
      var at := now;
      if q.literal {
        if c.exchange.None? { EveryRun(q, c, run); }
        OnlySocketEvents(q, c, run);
      } else {
        HeardAfterLookup(q, c, run);
        at :| d.exchange == Some(Run(Opened(q.transport, q.lim, q.payload, at), q.lim, AfterLookup(run)));
      }
      WritesExactly(q.transport, q.lim, q.payload, at, Heard(q, run));
    }
  }

  /** With the guard in allow-list mode, whatever the resolver answers: a socket is opened
      only to text that is no address at all, or to an address inside an allowed range. */
  lemma AllowListBoundsDialling(q: Request, rt: Runtime, cfg: Config, now: nat, run: seq<Timed>)
    requires cfg.allowed != [] && forall ip :: q.blocked(ip) == Decide(rt, cfg, ip).Some?
    ensures var d := CallRun(q, Begin(q, now), run);
            d.exchange.Some? ==>
              && d.lookup.verdict.Some? && d.lookup.verdict.value.Allowed?
              && var address := ToAddress(rt, d.lookup.verdict.value.target);
              address.Some? ==> exists r :: r in Loaded(rt, cfg.allowed) && Within(address.value, r)
  {
    hide CallRun, Loaded;
    DialsOnlyWhatPassed(q, now, run);
    var d := CallRun(q, Begin(q, now), run);
    if d.exchange.Some? {
      var address := ToAddress(rt, d.lookup.verdict.value.target);
      if address.Some? {
        FirstMatchIsExists(address.value, Loaded(rt, cfg.allowed));
      }
    }
  }

  /** And in block-list mode: never to an address inside a blocked range. */
  lemma BlockListBoundsDialling(q: Request, rt: Runtime, cfg: Config, now: nat, run: seq<Timed>)
    requires cfg.allowed == [] && forall ip :: q.blocked(ip) == Decide(rt, cfg, ip).Some?
    ensures var d := CallRun(q, Begin(q, now), run);
            d.exchange.Some? ==>
              && d.lookup.verdict.Some? && d.lookup.verdict.value.Allowed?
              && var address := ToAddress(rt, d.lookup.verdict.value.target);
              address.Some? ==> forall r :: r in Loaded(rt, BlockList(cfg)) ==> !Within(address.value, r)
  {
    hide CallRun, Loaded, BlockList;
    DialsOnlyWhatPassed(q, now, run);
    var d := CallRun(q, Begin(q, now), run);
    if d.exchange.Some? {
      var address := ToAddress(rt, d.lookup.verdict.value.target);
      if address.Some? {
        FirstMatchIsExists(address.value, Loaded(rt, BlockList(cfg)));
      }
    }
  }

  // ------------------------------------------------------------------- timing

  /** An event that can happen next at time `at` under an ideal clock: no armed timer is
      overdue, and a timer event is an armed timer going off on time. */
  predicate Possible(c: Call, now: nat, t: Timed) {
    && now <= t.at
    && Due(c.lookup.deadline, t.at)
    && (c.exchange.Some? ==> Due(c.exchange.value.connectTimer, t.at) && Due(c.exchange.value.callTimer, t.at))
    && (t.event == LookupDeadline ==> c.lookup.deadline == Some(t.at))
    && (t.event == OnSocket(ConnectTimer) ==> c.exchange.Some? && c.exchange.value.connectTimer == Some(t.at))
    && (t.event == OnSocket(CallTimer) ==> c.exchange.Some? && c.exchange.value.callTimer == Some(t.at))
  }

  predicate OnTime(q: Request, c: Call, now: nat, run: seq<Timed>)
    decreases |run|
  {
    run == [] ||
    (Possible(c, now, run[0]) && OnTime(q, CallStep(q, c, run[0].event, run[0].at), run[0].at, run[1..]))
  }

  /** The moment by which the timers a call holds have forced an answer. */
  predicate Bound(q: Request, c: Call, start: nat) {
    && (c.lookup.deadline.Some? ==> c.lookup.deadline.value <= start + q.lim.connectTimeout)
    && (c.exchange.Some? && c.exchange.value.callTimer.Some? ==>
          c.exchange.value.callTimer.value <= start + q.lim.connectTimeout + q.lim.callTimeout)
  }

  /** An unanswered call that is not wedged still holds a timer due within
      connectTimeout + callTimeout of its start, so on an ideal clock nothing can happen
      to it later than that: the documented budget has a whole connectTimeout to spare. */
  lemma {:induction false} AnswersInTime(q: Request, c: Call, start: nat, now: nat, run: seq<Timed>)
    requires CallSound(q, c) && Bound(q, c, start) && start <= now
    requires c.lookup.deadline.Some? ==> now <= start + q.lim.connectTimeout
    requires OnTime(q, c, now, run) && run != []
    ensures var before := CallRun(q, c, run[..|run| - 1]);
            Answer(before).None? && !Wedged(before) ==>
              run[|run| - 1].at <= start + q.lim.connectTimeout + q.lim.callTimeout
    decreases |run|
  {
    if |run| == 1 {
      assert run[..0] == [];
    } else {
      var e, at := run[0].event, run[0].at;
      var d := CallStep(q, c, e, at);
      assert run[..|run| - 1][1..] == run[1..][..|run| - 2] && run[..|run| - 1][0] == run[0];
      AnswersInTime(q, d, start, at, run[1..]);
    }
  }

  lemma CallAnswersInTime(q: Request, start: nat, run: seq<Timed>)
    requires OnTime(q, Begin(q, start), start, run) && run != []
    ensures var before := CallRun(q, Begin(q, start), run[..|run| - 1]);
            Answer(before).None? && !Wedged(before) ==>
              run[|run| - 1].at <= start + q.lim.connectTimeout + q.lim.callTimeout
  {
    AnswersInTime(q, Begin(q, start), start, start, run);
  }

  /** A name whose lookup never calls back: only its deadline is heard. */
  predicate Unresolved(run: seq<Timed>) {
    forall i :: 0 <= i < |run| ==> !run[i].event.Answered?
  }

  /** It is given up exactly when the connect budget is spent, and until then nothing is. */
  lemma {:induction false} UnresolvedFails(q: Request, c: Call, start: nat, now: nat, run: seq<Timed>)
    requires !q.literal && c == Begin(q, start) && OnTime(q, c, now, run) && Unresolved(run)
    ensures var answer := Answer(CallRun(q, c, run));
            && (answer.Some? <==> exists i :: 0 <= i < |run| && run[i].event == LookupDeadline)
            && (answer.Some? ==>
                  answer == Some(Refused(DnsTimeout)) &&
                  exists i :: 0 <= i < |run| && run[i] == Timed(start + q.lim.connectTimeout, LookupDeadline))
    decreases |run|
  {
    if run != [] {
      var e := run[0].event;
      assert !e.Answered?;
      var d := CallStep(q, c, e, run[0].at);
      StepKeeps(q, c, e, run[0].at);
      if e.OnSocket? {
        forall i | 0 <= i < |run| - 1
          ensures run[1..][i] == run[i + 1]
        {
        }
        UnresolvedFails(q, d, start, run[0].at, run[1..]);
        if i :| 0 <= i < |run[1..]| && run[1..][i].event == LookupDeadline {
          assert run[i + 1].event == LookupDeadline;
        }
        if i :| 0 <= i < |run| && run[i].event == LookupDeadline { assert run[1..][i - 1].event == LookupDeadline; }
        if i :| 0 <= i < |run[1..]| && run[1..][i] == Timed(start + q.lim.connectTimeout, LookupDeadline) {
          assert run[i + 1] == Timed(start + q.lim.connectTimeout, LookupDeadline);
        }
      } else {
        EveryRun(q, d, run[1..]);
        assert run[0] == Timed(start + q.lim.connectTimeout, LookupDeadline);
      }
    }
  }

  /** The two timers of an exchange are armed together. */
  ghost predicate ArmedTogether(q: Request, c: Call) {
    && c.lookup.verdict != Some(Rejected(ConnectTimeout))
    && (c.exchange.Some? && c.exchange.value.connectTimer.Some? ==>
          && q.transport.TCP?
          && c.exchange.value.callTimer.Some?
          && c.exchange.value.callTimer.value + q.lim.connectTimeout ==
             c.exchange.value.connectTimer.value + q.lim.callTimeout)
  }

  lemma {:induction false} ConnectTimeoutNeeds(q: Request, c: Call, now: nat, run: seq<Timed>)
    requires CallSound(q, c) && OnTime(q, c, now, run)
    requires Answer(c) != Some(Refused(ConnectTimeout)) && ArmedTogether(q, c)
    ensures Answer(CallRun(q, c, run)) == Some(Refused(ConnectTimeout)) ==>
              q.transport.TCP? && q.lim.connectTimeout <= q.lim.callTimeout
    decreases |run|
  {
    if run != [] {
      var d := CallStep(q, c, run[0].event, run[0].at);
      StepKeeps(q, c, run[0].event, run[0].at);
      if Answer(d) == Some(Refused(ConnectTimeout)) {
        EveryRun(q, d, run[1..]);
      } else {
        ConnectTimeoutNeeds(q, d, run[0].at, run[1..]);
      }
    }
  }

  /** Both timers are armed when the socket is, so the shorter one shadows the longer:
      with callTimeout below connectTimeout no call is ever refused as a connect timeout. */
  lemma ShorterCallTimeoutShadows(q: Request, now: nat, run: seq<Timed>)
    requires q.lim.callTimeout < q.lim.connectTimeout
    requires OnTime(q, Begin(q, now), now, run)
    ensures Answer(CallRun(q, Begin(q, now), run)) != Some(Refused(ConnectTimeout))
  {
    ConnectTimeoutNeeds(q, Begin(q, now), now, run);
  }

  ghost predicate ReportsConnectTimeout(q: Request, now: nat) {
    exists run :: OnTime(q, Begin(q, now), now, run) &&
                  Answer(CallRun(q, Begin(q, now), run)) == Some(Refused(ConnectTimeout))
  }

  /** There is an address this request may be relayed to. */
  ghost predicate HasTarget(q: Request) {
    if q.literal then !q.blocked(q.host) else exists address :: !q.blocked(address)
  }

  /** Some run of a call ends in a connect timeout if and only if it goes over TCP, has an
      address it may dial, and its connect budget is no longer than its call budget. */
  lemma ConnectTimeoutExactly(q: Request, now: nat)
    ensures ReportsConnectTimeout(q, now) <==>
            q.transport.TCP? && HasTarget(q) && q.lim.connectTimeout <= q.lim.callTimeout
  {
    var c := Begin(q, now);
    if ReportsConnectTimeout(q, now) {
      var run :| OnTime(q, c, now, run) && Answer(CallRun(q, c, run)) == Some(Refused(ConnectTimeout));
      ConnectTimeoutNeeds(q, c, now, run);
      ConnectTimeoutHasTarget(q, now, run);
    }
    if q.transport.TCP? && HasTarget(q) && q.lim.connectTimeout <= q.lim.callTimeout {
      var late := Timed(now + q.lim.connectTimeout, OnSocket(ConnectTimer));
      if q.literal {
        OneTimer(q, c, now, late);
      } else {
        var address :| !q.blocked(address);
        AnswerThenTimer(q, now, address, late);
      }
    }
  }

  lemma ConnectTimeoutHasTarget(q: Request, now: nat, run: seq<Timed>)
    requires Answer(CallRun(q, Begin(q, now), run)) == Some(Refused(ConnectTimeout))
    ensures HasTarget(q)
  {
    hide CallVerdict, PassedAnswer;
    var d := CallRun(q, Begin(q, now), run);
    DialsOnlyWhatPassed(q, now, run);
    LookupsDoNotConnect(q, Begin(q, now), run);
    assert !q.blocked(d.lookup.verdict.value.target);
  }

  /** A lookup is never refused as a connect timeout. */
  lemma {:induction false} LookupsDoNotConnect(q: Request, c: Call, run: seq<Timed>)
    requires c.lookup.verdict != Some(Rejected(ConnectTimeout))
    ensures CallRun(q, c, run).lookup.verdict != Some(Rejected(ConnectTimeout))
    decreases |run|
  {
    if run != [] {
      hide Step;
      LookupsDoNotConnect(q, CallStep(q, c, run[0].event, run[0].at), run[1..]);
    }
  }

  lemma OneTimer(q: Request, c: Call, now: nat, late: Timed)
    requires CallSound(q, c) && c.exchange == Some(Opened(TCP, q.lim, q.payload, now))
    requires late == Timed(now + q.lim.connectTimeout, OnSocket(ConnectTimer))
    requires q.lim.connectTimeout <= q.lim.callTimeout
    ensures OnTime(q, c, now, [late]) && Answer(CallRun(q, c, [late])) == Some(Refused(ConnectTimeout))
  {
    var d := CallStep(q, c, late.event, late.at);
    assert [late][1..] == [];
    assert CallRun(q, c, [late]) == CallRun(q, d, []) == d;
    assert OnTime(q, d, late.at, []);
  }

  lemma AnswerThenTimer(q: Request, now: nat, address: string, late: Timed)
    requires !q.literal && q.transport.TCP? && !q.blocked(address)
    requires late == Timed(now + q.lim.connectTimeout, OnSocket(ConnectTimer))
    requires q.lim.connectTimeout <= q.lim.callTimeout
    ensures ReportsConnectTimeout(q, now)
  {
    var c, first := Begin(q, now), Timed(now, Answered(Addresses([address])));
    var d := CallStep(q, c, first.event, now);
    OneTimer(q, d, now, late);
    assert [first, late][1..] == [late];
    assert Possible(c, now, first);
    assert OnTime(q, c, now, [first, late]);
  }

  /** The far end does nothing at all: of the socket, only its timers are heard. */
  predicate Silent(run: seq<Timed>) {
    forall i :: 0 <= i < |run| ==>
      run[i].event.OnSocket? ==> run[i].event.event == ConnectTimer || run[i].event.event == CallTimer
  }

  function ShorterTimeout(lim: Limits): nat {
    if lim.connectTimeout <= lim.callTimeout then lim.connectTimeout else lim.callTimeout
  }

  /** What a dead address is refused for: exactly when the shorter of the two budgets is
      spent, with the code of that one. It fails at connectTimeout as promised if and only
      if that is not the longer. */
  lemma {:induction false} DeadAddressFails(q: Request, c: Call, start: nat, now: nat, run: seq<Timed>) returns (i: nat)
    requires CallSound(q, c) && c.exchange == Some(Opened(TCP, q.lim, q.payload, start))
    requires OnTime(q, c, now, run) && Silent(run)
    ensures var answer := Answer(CallRun(q, c, run));
            answer.Some? ==>
              && i < |run| && run[i].at == start + ShorterTimeout(q.lim)
              && Answer(CallRun(q, c, run[..i])).None?
              && (answer.value == Refused(ConnectTimeout) || answer.value == Refused(CallTimeout))
              && (q.lim.connectTimeout < q.lim.callTimeout ==> answer.value == Refused(ConnectTimeout))
              && (q.lim.callTimeout < q.lim.connectTimeout ==> answer.value == Refused(CallTimeout))
    decreases |run|
  {
    i := 0;
    if run != [] {
      assert run[..0] == [];
      var e := run[0].event;
      var d := CallStep(q, c, e, run[0].at);
      StepKeeps(q, c, e, run[0].at);
      if e.OnSocket? {
        EveryRun(q, d, run[1..]);
      } else {
        assert d == c;
        i := DeadAddressFails(q, c, start, run[0].at, run[1..]);
        if Answer(CallRun(q, c, run)).Some? {
          assert run[..i + 1][1..] == run[1..][..i];
        }
        i := i + 1;
      }
    }
  }
}
