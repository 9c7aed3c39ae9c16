/** api/tls_probe.js: one handshake, and the HTTP request asked over it, as an event machine. */
module TlsHandshake {
  import opened Bytes
  import opened Timers
  import opened TlsResponse

  const POST_HANDSHAKE_GRACE_MS := 750
  const HTTP_RESPONSE_GRACE_MS := 2000

  datatype Options = Options(connectTimeout: nat, callTimeout: nat, maxBytes: nat, asks: bool)

  datatype Reason = Cap | Closed | Finished | Silence | WriteFailed

  datatype HttpAnswer = HttpAnswer(response: Response, bytes: nat, truncated: bool, endedBy: Reason)

  datatype Report = Report(closedByPeer: bool, peerData: bool, failed: bool, answer: Option<HttpAnswer>)

  datatype Refusal = ConnectTimeout | HandshakeTimeout

  datatype Outcome = Rejected(why: Refusal) | NoHandshake | Reported(report: Report, usable: bool)

  /** The socket's events and the timers going off. SecureConnect says whether the
      request, if there is one, could be written. */
  datatype Event =
    | Connected | SecureConnect(written: bool) | Data(chunk: seq<byte>) | Close | End | Failed
    | Idle | ConnectDeadline | CallDeadline | GraceTimer

  datatype State = State(
    settled: bool,
    connectDeadline: Option<nat>,
    callDeadline: Option<nat>,
    graceTimer: Option<nat>,
    open: bool,
    report: Option<Report>,
    received: seq<byte>,
    bytes: nat,
    truncated: bool,
    outcome: Option<Outcome>)

  function Start(o: Options, now: nat): State {
    State(false, Some(now + o.connectTimeout), Some(now + o.callTimeout), None, true, None, [], 0, false, None)
  }

  /** Whether the connection worked: nothing went wrong after the handshake, and the far
      end did not just hang up. */
  predicate Usable(r: Report) {
    !r.failed && !(r.closedByPeer && !r.peerData)
  }

  function Finish(s: State, outcome: Outcome): State {
    if s.settled then s
    else s.(settled := true, connectDeadline := None, callDeadline := None, graceTimer := None,
            open := false, outcome := Some(outcome))
  }

  function FinishReport(s: State, r: Report): State {
    if s.settled then s else Finish(s.(report := Some(r)), Reported(r, Usable(r)))
  }

  function SettleWithResponse(s: State, r: Report, reason: Reason): State {
    FinishReport(s, r.(answer := Some(HttpAnswer(ParseHttpResponse(s.received), s.bytes, s.truncated, reason)),
                       peerData := r.peerData || s.bytes > 0))
  }

  /** The 'data' handler of `askOverTheConnection`. */
  function Accumulate(o: Options, s: State, r: Report, chunk: seq<byte>, now: nat): State {
    var t := s.(bytes := s.bytes + |chunk|);
    if s.truncated then t.(graceTimer := Some(now + HTTP_RESPONSE_GRACE_MS))
    else if |s.received| + |chunk| > o.maxBytes then
      var room := if o.maxBytes > |s.received| then o.maxBytes - |s.received| else 0;
      SettleWithResponse(t.(truncated := true, received := s.received + chunk[..room]), r, Cap)
    else
      t.(received := s.received + chunk, graceTimer := Some(now + HTTP_RESPONSE_GRACE_MS))
  }

  /** One event. Once settled every listener is gone and every timer cleared, so nothing
      further is seen; before the handshake completes only connecting can fail. */
  function Step(o: Options, s: State, e: Event, now: nat): State {
    if s.settled then s
    else match e
      case Connected => s.(connectDeadline := None)
      case SecureConnect(written) =>
        if s.report.Some? then s
        else
          var r := Report(false, false, false, None);
          var t := s.(report := Some(r));
          if !o.asks then t.(graceTimer := Some(now + POST_HANDSHAKE_GRACE_MS))
          else if written then t.(graceTimer := Some(now + HTTP_RESPONSE_GRACE_MS))
          else SettleWithResponse(t, r, WriteFailed)
      case Data(chunk) =>
        if s.report.None? then s
        else if !o.asks then FinishReport(s, s.report.value.(peerData := true))
        else Accumulate(o, s, s.report.value, chunk, now)
      case Close =>
        if s.report.None? then s
        else
          var r := s.report.value.(closedByPeer := true);
          if o.asks then SettleWithResponse(s, r, Closed) else FinishReport(s, r)
      case End =>
        if s.report.None? || !o.asks then s
        else SettleWithResponse(s, s.report.value.(closedByPeer := true), Finished)
      case Failed =>
        if s.report.Some? then FinishReport(s, s.report.value.(failed := true)) else Finish(s, NoHandshake)
      case Idle =>
        if s.connectDeadline.None? then s else Finish(s, Rejected(ConnectTimeout))
      case ConnectDeadline =>
        if s.connectDeadline.None? then s else Finish(s, Rejected(ConnectTimeout))
      case CallDeadline => Finish(s, Rejected(HandshakeTimeout))
      case GraceTimer =>
        if s.graceTimer.None? || s.report.None? then s
        else if o.asks then SettleWithResponse(s, s.report.value, Silence)
        else FinishReport(s, s.report.value)
  }

  /** What a chunk does once the handshake has completed, case by case. */
  lemma DataGives(o: Options, s: State, chunk: seq<byte>, now: nat)
    requires !s.settled && s.report.Some?
    ensures var d, r := Step(o, s, Data(chunk), now), s.report.value;
            var t := s.(bytes := s.bytes + |chunk|);
            var room := if o.maxBytes > |s.received| then o.maxBytes - |s.received| else 0;
            && (!o.asks ==> d == FinishReport(s, r.(peerData := true)))
            && (o.asks && s.truncated ==> d == t.(graceTimer := Some(now + HTTP_RESPONSE_GRACE_MS)))
            && (o.asks && !s.truncated && |s.received| + |chunk| <= o.maxBytes ==>
                  d == t.(received := s.received + chunk, graceTimer := Some(now + HTTP_RESPONSE_GRACE_MS)))
            && (o.asks && !s.truncated && |s.received| + |chunk| > o.maxBytes ==>
                  room <= |chunk| &&
                  d == SettleWithResponse(t.(truncated := true, received := s.received + chunk[..room]), r, Cap))
  {
    hide ParseHttpResponse;
  }

  /** The variables `handshake` and `askOverTheConnection` share, and their handlers. */
  class Handshake {
    const o: Options
    var settled: bool
    var connectDeadline: Option<nat>
    var callDeadline: Option<nat>
    var graceTimer: Option<nat>
    var open: bool
    var report: Option<Report>
    var received: seq<seq<byte>>
    var bytes: nat
    var kept: nat
    var truncated: bool
    var outcome: Option<Outcome>

    ghost predicate Valid()
      reads this
    {
      kept == |Flatten(received)|
    }

    ghost function View(): State
      reads this
    {
      State(settled, connectDeadline, callDeadline, graceTimer, open, report, Flatten(received), bytes,
            truncated, outcome)
    }

    constructor (o: Options, now: nat)
      ensures Valid() && this.o == o && View() == Start(o, now)
    {
      this.o := o;
      settled, open, report, outcome := false, true, None, None;
      connectDeadline, callDeadline, graceTimer := Some(now + o.connectTimeout), Some(now + o.callTimeout), None;
      received, bytes, kept, truncated := [], 0, 0, false;
    }

    method Settle(value: Outcome)
      requires Valid()
      modifies this
      ensures Valid() && View() == Finish(old(View()), value)
    {
      if settled {
        return;
      }
      settled := true;
      connectDeadline, callDeadline, graceTimer := None, None, None;
      open := false;
      outcome := Some(value);
    }

    method SettleReport(r: Report)
      requires Valid()
      modifies this
      ensures Valid() && View() == FinishReport(old(View()), r)
    {
      if settled {
        return;
      }
      report := Some(r);
      Settle(Reported(r, Usable(r)));
    }

    method SettleResponse(r: Report, reason: Reason)
      requires Valid()
      modifies this
      ensures Valid() && View() == SettleWithResponse(old(View()), r, reason)
    {
      hide ParseHttpResponse;
      if settled {
        return;
      }
      var answer := HttpAnswer(ParseHttpResponse(Flatten(received)), bytes, truncated, reason);
      SettleReport(r.(answer := Some(answer), peerData := r.peerData || bytes > 0));
    }

    method OnSecureConnect(written: bool, now: nat)
      requires Valid() && !settled && report.None?
      modifies this
      ensures Valid() && View() == Step(o, old(View()), SecureConnect(written), now)
    {
      var r := Report(false, false, false, None);
      report := Some(r);
      if !o.asks {
        graceTimer := Some(now + POST_HANDSHAKE_GRACE_MS);
        return;
      }
      graceTimer := Some(now + HTTP_RESPONSE_GRACE_MS);
      if !written {
        SettleResponse(r, WriteFailed);
      }
    }

    method OnData(chunk: seq<byte>, now: nat)
      requires Valid() && !settled && report.Some?
      modifies this
      ensures Valid() && View() == Step(o, old(View()), Data(chunk), now)
    {
      hide ParseHttpResponse, Usable, Step, SettleWithResponse, FinishReport, Flatten;
      DataGives(o, View(), chunk, now);
      if !o.asks {
        SettleReport(report.value.(peerData := true));
        return;
      }
      bytes := bytes + |chunk|;
      if !truncated {
        var room := o.maxBytes as int - kept as int;
        if |chunk| > room {
          truncated := true;
          if room > 0 {
            FlattenSnoc(received, chunk[..room]);
            received := received + [chunk[..room]];
            kept := kept + room;
          } else {
            assert Flatten(received) + chunk[..0] == Flatten(received);
          }
          SettleResponse(report.value, Cap);
          return;
        }
        FlattenSnoc(received, chunk);
        received := received + [chunk];
        kept := kept + |chunk|;
      }
      graceTimer := Some(now + HTTP_RESPONSE_GRACE_MS);
    }

    method OnClose(now: nat)
      requires Valid() && !settled && report.Some?
      modifies this
      ensures Valid() && View() == Step(o, old(View()), Close, now)
    {
      var r := report.value.(closedByPeer := true);
      if o.asks {
        SettleResponse(r, Closed);
      } else {
        SettleReport(r);
      }
    }

    method OnEnd(now: nat)
      requires Valid() && !settled && report.Some? && o.asks
      modifies this
      ensures Valid() && View() == Step(o, old(View()), End, now)
    {
      SettleResponse(report.value.(closedByPeer := true), Finished);
    }

    method OnError(now: nat)
      requires Valid() && !settled
      modifies this
      ensures Valid() && View() == Step(o, old(View()), Failed, now)
    {
      if report.Some? {
        SettleReport(report.value.(failed := true));
        return;
      }
      Settle(NoHandshake);
    }

    method OnGraceTimer(now: nat)
      requires Valid() && !settled && report.Some? && graceTimer.Some?
      modifies this
      ensures Valid() && View() == Step(o, old(View()), GraceTimer, now)
    {
      if o.asks {
        SettleResponse(report.value, Silence);
      } else {
        SettleReport(report.value);
      }
    }

    method OnConnect(now: nat)
      requires Valid() && !settled
      modifies this
      ensures Valid() && View() == Step(o, old(View()), Connected, now)
    {
      connectDeadline := None;
    }

    method OnConnectDeadline(now: nat)
      requires Valid() && !settled && connectDeadline.Some?
      modifies this
      ensures Valid() && View() == Step(o, old(View()), ConnectDeadline, now)
    {
      Settle(Rejected(ConnectTimeout));
    }

    method OnIdle(now: nat)
      requires Valid() && !settled && connectDeadline.Some?
      modifies this
      ensures Valid() && View() == Step(o, old(View()), Idle, now)
    {
      Settle(Rejected(ConnectTimeout));
    }

    method OnCallDeadline(now: nat)
      requires Valid() && !settled
      modifies this
      ensures Valid() && View() == Step(o, old(View()), CallDeadline, now)
    {
      Settle(Rejected(HandshakeTimeout));
    }
  }

  // --------------------------------------------------------------- every run

  datatype Timed = Timed(at: nat, event: Event)

  function Run(o: Options, s: State, run: seq<Timed>): State
    decreases |run|
  {
    if run == [] then s else Run(o, Step(o, s, run[0].event, run[0].at), run[1..])
  }

  /** Everything the far end sent once the handshake had completed. */
  function Sent(s: State, run: seq<Timed>, o: Options): seq<byte>
    decreases |run|
  {
    if run == [] then []
    else
      var t := Step(o, s, run[0].event, run[0].at);
      (if run[0].event.Data? && s.report.Some? && !s.settled then run[0].event.chunk else []) + Sent(t, run[1..], o)
  }

  function Keep(stream: seq<byte>, cap: nat): seq<byte> {
    if |stream| <= cap then stream else stream[..cap]
  }

  /** The response in a report is what was sent, up to the cap and read once. */
  ghost predicate IsReadingOf(o: Options, sent: seq<byte>, outcome: Outcome)
    requires outcome.Reported? && outcome.report.answer.Some?
  {
    var answer := outcome.report.answer.value;
    && o.asks
    && answer.response == ParseHttpResponse(Keep(sent, o.maxBytes))
    && answer.bytes == |sent|
    && answer.truncated == (answer.endedBy == Cap) == (|sent| > o.maxBytes)
    && outcome.usable == (|sent| > 0 || answer.endedBy == Silence || answer.endedBy == WriteFailed)
  }

  /** What every state of a run satisfies, given all that has been sent so far. */
  ghost predicate Sound(o: Options, s: State, sent: seq<byte>) {
    && (s.settled <==> s.outcome.Some?)
    && (s.settled <==> !s.open)
    && (s.settled <==> s.callDeadline.None?)
    && (s.settled ==> s.connectDeadline.None? && s.graceTimer.None?)
    && (s.report.None? ==> sent == [])
    && (o.asks ==> s.received == Keep(sent, o.maxBytes) && s.bytes == |sent| && s.truncated == (|sent| > o.maxBytes))
    && (o.asks && s.truncated ==> s.settled)
    && (!s.settled && s.report.Some? ==> s.report.value == Report(false, false, false, None))
    && (s.settled && s.outcome.value.Reported? ==> s.outcome.value.usable == Usable(s.outcome.value.report))
    && (s.settled && s.outcome.value.Reported? && s.outcome.value.report.answer.Some? ==>
          IsReadingOf(o, sent, s.outcome.value))
    && (s.settled && s.outcome.value.Reported? && s.outcome.value.report.failed ==> !s.outcome.value.usable)
    && (s.settled && s.outcome.value.Reported? && o.asks && !s.outcome.value.report.failed ==>
          s.outcome.value.report.answer.Some?)
  }

  lemma StepKeeps(o: Options, s: State, sent: seq<byte>, e: Event, now: nat)
    requires Sound(o, s, sent)
    ensures var more := if e.Data? && s.report.Some? && !s.settled then e.chunk else [];
            Sound(o, Step(o, s, e, now), sent + more)
    ensures s.settled ==> Step(o, s, e, now) == s
  {
    hide ParseHttpResponse, Keep;
    assert sent + [] == sent;
    if e.Data? && s.report.Some? && !s.settled && o.asks {
      KeepGrows(sent, e.chunk, o.maxBytes);
    }
  }

  lemma KeepGrows(sent: seq<byte>, chunk: seq<byte>, cap: nat)
    ensures |sent| <= cap ==>
              Keep(sent, cap) == sent &&
              Keep(sent + chunk, cap) == if |sent| + |chunk| <= cap then sent + chunk else sent + chunk[..cap - |sent|]
  {
  }

  /** Whatever the order of events: the call settles once and then holds no timer and no
      socket; and a response, when one is reported, is read off exactly the first
      min(total, cap) bytes sent, is marked truncated exactly when more than the cap was
      sent, and is ended by the cap in exactly that case. Its connection is called usable
      unless the far end hung up having sent nothing; after an error it never is. */
  lemma {:induction false} EveryRun(o: Options, s: State, sent: seq<byte>, run: seq<Timed>)
    requires Sound(o, s, sent)
    ensures Sound(o, Run(o, s, run), sent + Sent(s, run, o))
    ensures s.settled ==> Run(o, s, run) == s
    decreases |run|
  {
    hide Sound;
    if run == [] {
      assert sent + [] == sent;
    } else {
      var e := run[0].event;
      var more := if e.Data? && s.report.Some? && !s.settled then e.chunk else [];
      StepKeeps(o, s, sent, e, run[0].at);
      EveryRun(o, Step(o, s, e, run[0].at), sent + more, run[1..]);
      assert sent + Sent(s, run, o) == sent + more + Sent(Step(o, s, e, run[0].at), run[1..], o);
      SettledStays(o, s, run);
    }
  }

  lemma {:induction false} SettledStays(o: Options, s: State, run: seq<Timed>)
    ensures s.settled ==> Run(o, s, run) == s
    decreases |run|
  {
    if run != [] && s.settled {
      SettledStays(o, s, run[1..]);
    }
  }

  lemma {:induction false} RunAppend(o: Options, s: State, a: seq<Timed>, b: seq<Timed>)
    ensures Run(o, s, a + b) == Run(o, Run(o, s, a), b)
    decreases |a|
  {
    if a == [] {
      assert a + b == b;
    } else {
      hide Step;
      assert (a + b)[1..] == a[1..] + b;
      RunAppend(o, Step(o, s, a[0].event, a[0].at), a[1..], b);
    }
  }

  lemma StartIsSound(o: Options, now: nat)
    ensures Sound(o, Start(o, now), [])
  {
  }

  /** The report with the response in `sent`, and what it says of the connection. */
  function Answered(o: Options, sent: seq<byte>, hungUp: bool, reason: Reason): Outcome {
    var answer := HttpAnswer(ParseHttpResponse(Keep(sent, o.maxBytes)), |sent|, |sent| > o.maxBytes, reason);
    var r := Report(hungUp, |sent| > 0, false, Some(answer));
    Reported(r, Usable(r))
  }

  /** The report of a handshake that asks nothing. */
  function Unasked(hungUp: bool, spoke: bool): Outcome {
    var r := Report(hungUp, spoke, false, None);
    Reported(r, Usable(r))
  }

  /** The outcome read off the list of events alone, with no flag, timer or report: the
      first event that is terminal where it stands. `connecting` is before the connection,
      `secured` after the handshake, `sent` what has arrived since. */
  function Verdict(o: Options, connecting: bool, secured: bool, sent: seq<byte>, run: seq<Timed>): Option<Outcome>
    decreases |run|
  {
    if run == [] then None
    else
      var rest := run[1..];
      match run[0].event
      case Connected => Verdict(o, false, secured, sent, rest)
      case SecureConnect(written) =>
        if !secured && o.asks && !written then Some(Answered(o, sent, false, WriteFailed))
        else Verdict(o, connecting, true, sent, rest)
      case Data(chunk) =>
        if !secured then Verdict(o, connecting, secured, sent, rest)
        else if !o.asks then Some(Unasked(false, true))
        else if |sent + chunk| > o.maxBytes then Some(Answered(o, sent + chunk, false, Cap))
        else Verdict(o, connecting, secured, sent + chunk, rest)
      case Close =>
        if !secured then Verdict(o, connecting, secured, sent, rest)
        else if o.asks then Some(Answered(o, sent, true, Closed)) else Some(Unasked(true, false))
      case End =>
        if secured && o.asks then Some(Answered(o, sent, true, Finished))
        else Verdict(o, connecting, secured, sent, rest)
      case Failed =>
        if secured then Some(Reported(Report(false, false, true, None), false)) else Some(NoHandshake)
      case Idle => if connecting then Some(Rejected(ConnectTimeout)) else Verdict(o, connecting, secured, sent, rest)
      case ConnectDeadline =>
        if connecting then Some(Rejected(ConnectTimeout)) else Verdict(o, connecting, secured, sent, rest)
      case CallDeadline => Some(Rejected(HandshakeTimeout))
      case GraceTimer =>
        if !secured then Verdict(o, connecting, secured, sent, rest)
        else if o.asks then Some(Answered(o, sent, false, Silence)) else Some(Unasked(false, false))
  }

  /** What holds until a handshake settles. */
  ghost predicate Waiting(o: Options, s: State, sent: seq<byte>) {
    && !s.settled && s.outcome.None?
    && (s.report.Some? ==> s.report.value == Report(false, false, false, None))
    && (s.graceTimer.Some? <==> s.report.Some?)
    && (s.report.None? ==> sent == [])
    && s.received == sent && s.bytes == |sent| && !s.truncated && |sent| <= o.maxBytes
  }

  /** One event, in a handshake still waiting, is the verdict or leaves a wait. */
  ghost predicate FollowsVerdict(o: Options, s: State, sent: seq<byte>, t: Timed, rest: seq<Timed>) {
    var d, run := Step(o, s, t.event, t.at), [t] + rest;
    var verdict := Verdict(o, s.connectDeadline.Some?, s.report.Some?, sent, run);
    && (d.settled ==> d.outcome == verdict)
    && (!d.settled ==>
          var more := sent + if t.event.Data? && s.report.Some? then t.event.chunk else [];
          Waiting(o, d, more) && verdict == Verdict(o, d.connectDeadline.Some?, d.report.Some?, more, rest))
  }

  lemma KeepsAll(sent: seq<byte>, cap: nat)
    requires |sent| <= cap
    ensures Keep(sent, cap) == sent
  {
  }

  lemma DataVerdict(o: Options, s: State, sent: seq<byte>, t: Timed, rest: seq<Timed>)
    requires Waiting(o, s, sent) && t.event.Data?
    ensures FollowsVerdict(o, s, sent, t, rest)
  {
    assert ([t] + rest)[1..] == rest && sent + [] == sent;
    KeepGrows(sent, t.event.chunk, o.maxBytes);
    if s.report.Some? { DataGives(o, s, t.event.chunk, t.at); }
    hide ParseHttpResponse, Keep;
  }

  /** The events that are terminal only after the handshake. */
  lemma SecuredVerdict(o: Options, s: State, sent: seq<byte>, t: Timed, rest: seq<Timed>)
    requires Waiting(o, s, sent)
    requires t.event.Close? || t.event.End? || t.event.GraceTimer? || t.event.SecureConnect?
    ensures FollowsVerdict(o, s, sent, t, rest)
  {
    KeepsAll(sent, o.maxBytes);
    hide ParseHttpResponse, Keep;
    assert ([t] + rest)[1..] == rest && sent + [] == sent;
  }

  lemma OtherVerdict(o: Options, s: State, sent: seq<byte>, t: Timed, rest: seq<Timed>)
    requires Waiting(o, s, sent)
    requires !t.event.Data? && !t.event.Close? && !t.event.End? && !t.event.GraceTimer? && !t.event.SecureConnect?
    ensures FollowsVerdict(o, s, sent, t, rest)
  {
    hide ParseHttpResponse, Keep;
    assert ([t] + rest)[1..] == rest && sent + [] == sent;
  }

  lemma StepVerdict(o: Options, s: State, sent: seq<byte>, t: Timed, rest: seq<Timed>)
    requires Waiting(o, s, sent)
    ensures FollowsVerdict(o, s, sent, t, rest)
  {
    hide Waiting, FollowsVerdict;
    if t.event.Data? {
      DataVerdict(o, s, sent, t, rest);
    } else if t.event.Close? || t.event.End? || t.event.GraceTimer? || t.event.SecureConnect? {
      SecuredVerdict(o, s, sent, t, rest);
    } else {
      OtherVerdict(o, s, sent, t, rest);
    }
  }

  /** Whatever the order of events, a waiting handshake ends in the outcome the scan finds. */
  lemma {:induction false} EndsInVerdict(o: Options, s: State, sent: seq<byte>, run: seq<Timed>)
    requires Waiting(o, s, sent)
    ensures Run(o, s, run).outcome == Verdict(o, s.connectDeadline.Some?, s.report.Some?, sent, run)
    decreases |run|
  {
    if run != [] {
      hide Step, Verdict, Waiting;
      assert [run[0]] + run[1..] == run;
      StepVerdict(o, s, sent, run[0], run[1..]);
      var d := Step(o, s, run[0].event, run[0].at);
      if d.settled {
        SettledStays(o, d, run[1..]);
      } else {
        var more := sent + if run[0].event.Data? && s.report.Some? then run[0].event.chunk else [];
        EndsInVerdict(o, d, more, run[1..]);
      }
    } else {
      hide Step;
    }
  }

  /** For every handshake from its start: it ends in the outcome the scan of its events
      finds, settles once and for good, and then holds no timer and no socket; a response it
      reports is the reading of the first min(total, cap) bytes sent. */
  lemma HandshakeOutcome(o: Options, now: nat, run: seq<Timed>)
    ensures var d, sent := Run(o, Start(o, now), run), Sent(Start(o, now), run, o);
            && d.outcome == Verdict(o, true, false, [], run)
            && (forall k :: 0 <= k <= |run| && Run(o, Start(o, now), run[..k]).settled ==>
                  d == Run(o, Start(o, now), run[..k]))
            && (d.settled <==> d.outcome.Some?)
            && (d.settled ==> !d.open && d.connectDeadline.None? && d.callDeadline.None? && d.graceTimer.None?)
            && (d.settled && d.outcome.value.Reported? && d.outcome.value.report.answer.Some? ==>
                  IsReadingOf(o, sent, d.outcome.value))
            && (d.settled && d.outcome.value.Reported? && o.asks && !d.outcome.value.report.failed ==>
                  d.outcome.value.report.answer.Some?)
            && (d.settled && d.outcome.value.Reported? && d.outcome.value.report.failed ==> !d.outcome.value.usable)
  {
    EndsInVerdict(o, Start(o, now), [], run);
    hide Run, Sent, ParseHttpResponse, Keep, Verdict;
    forall k | 0 <= k <= |run| && Run(o, Start(o, now), run[..k]).settled
      ensures Run(o, Start(o, now), run) == Run(o, Start(o, now), run[..k])
    {
      assert run[..k] + run[k..] == run;
      RunAppend(o, Start(o, now), run[..k], run[k..]);
      SettledStays(o, Run(o, Start(o, now), run[..k]), run[k..]);
    }
    StartIsSound(o, now);
    EveryRun(o, Start(o, now), [], run);
    assert [] + Sent(Start(o, now), run, o) == Sent(Start(o, now), run, o);
  }

  // ---------------------------------------------------------------- usability

  /** The event that ends the wait after a handshake that asks nothing: the first of data,
      a close, an error and the end of the grace, once the handshake has completed. */
  function EndsWait(run: seq<Timed>, secured: bool): Option<Event>
    decreases |run|
  {
    if run == [] then None
    else
      var e := run[0].event;
      if secured && (e.Data? || e.Close? || e.Failed? || e.GraceTimer?) then Some(e)
      else EndsWait(run[1..], secured || e.SecureConnect?)
  }

  lemma {:induction false} UnaskedVerdict(o: Options, connecting: bool, secured: bool, run: seq<Timed>)
    requires !o.asks
    ensures var x := Verdict(o, connecting, secured, [], run);
            x.Some? && x.value.Reported? ==>
              var e := EndsWait(run, secured);
              && e.Some?
              && x.value.usable == (e.value.Data? || e.value.GraceTimer?)
              && x.value.report == Report(e.value.Close?, e.value.Data?, e.value.Failed?, None)
    decreases |run|
  {
    if run != [] {
      var e := run[0].event;
      UnaskedVerdict(o, connecting && !e.Connected?, secured || e.SecureConnect?, run[1..]);
    }
  }

  /** A handshake that asks nothing is found usable exactly when the first thing after it is
      data from the far end or the end of the grace. A far end that closes, as a TLS 1.3
      server refusing a client certificate does, or an alert makes it unusable. */
  lemma UnaskedUsability(o: Options, now: nat, run: seq<Timed>)
    requires !o.asks
    ensures var x := Run(o, Start(o, now), run).outcome;
            x.Some? && x.value.Reported? ==>
              var e := EndsWait(run, false);
              && e.Some?
              && x.value.usable == (e.value.Data? || e.value.GraceTimer?)
              && x.value.report == Report(e.value.Close?, e.value.Data?, e.value.Failed?, None)
  {
    hide Run, Verdict, EndsWait;
    EndsInVerdict(o, Start(o, now), [], run);
    UnaskedVerdict(o, true, false, run);
  }

  /** And one that asks: unusable after an error, or when the far end hung up having sent
      nothing since the handshake; usable in every other case. */
  lemma AskedUsability(o: Options, now: nat, run: seq<Timed>)
    requires o.asks
    ensures var x, sent := Run(o, Start(o, now), run).outcome, Sent(Start(o, now), run, o);
            x.Some? && x.value.Reported? ==>
              if x.value.report.failed then !x.value.usable
              else
                && x.value.report.answer.Some?
                && var ended := x.value.report.answer.value.endedBy;
                x.value.usable == !((ended == Closed || ended == Finished) && sent == [])
  {
    hide Run, Sent, ParseHttpResponse, Keep, Verdict;
    HandshakeOutcome(o, now, run);
  }

  // ------------------------------------------------------------------- timing

  /** On an ideal clock no armed timer is overdue and each goes off when it is due. The
      socket's own idle timeout may come at any time. */
  predicate Possible(s: State, now: nat, t: Timed) {
    && now <= t.at
    && Due(s.connectDeadline, t.at) && Due(s.callDeadline, t.at) && Due(s.graceTimer, t.at)
    && (t.event == ConnectDeadline ==> s.connectDeadline == Some(t.at))
    && (t.event == CallDeadline ==> s.callDeadline == Some(t.at))
    && (t.event == GraceTimer ==> s.graceTimer == Some(t.at))
  }

  predicate OnTime(o: Options, s: State, now: nat, run: seq<Timed>)
    decreases |run|
  {
    run == [] ||
    (Possible(s, now, run[0]) && OnTime(o, Step(o, s, run[0].event, run[0].at), run[0].at, run[1..]))
  }

  lemma StepHoldsDeadline(o: Options, s: State, e: Event, now: nat)
    requires !s.settled
    ensures var t := Step(o, s, e, now); t.settled || t.callDeadline == s.callDeadline
  {
    hide ParseHttpResponse;
  }

  lemma {:induction false} NothingAfterDeadline(o: Options, s: State, now: nat, run: seq<Timed>)
    requires !s.settled && s.callDeadline.Some? && OnTime(o, s, now, run) && run != []
    ensures !Run(o, s, run[..|run| - 1]).settled ==> run[|run| - 1].at <= s.callDeadline.value
    decreases |run|
  {
    var before := run[..|run| - 1];
    if |run| > 1 {
      var t := Step(o, s, run[0].event, run[0].at);
      hide Step;
      StepHoldsDeadline(o, s, run[0].event, run[0].at);
      assert before[1..] == run[1..][..|run| - 2];
      if t.settled {
        SettledStays(o, t, before[1..]);
      } else {
        NothingAfterDeadline(o, t, run[0].at, run[1..]);
      }
    }
  }

  /** On an ideal clock nothing happens to an unsettled handshake later than callTimeout
      after its start, whatever else it is waiting for: by then it has settled. */
  lemma SettlesInTime(o: Options, start: nat, run: seq<Timed>)
    requires OnTime(o, Start(o, start), start, run) && run != []
    ensures !Run(o, Start(o, start), run[..|run| - 1]).settled ==> run[|run| - 1].at <= start + o.callTimeout
  {
    NothingAfterDeadline(o, Start(o, start), start, run);
  }

  /** When the far end was last heard: the handshake completing, or a chunk since. */
  function LastHeard(run: seq<Timed>, heard: Option<nat>): Option<nat>
    decreases |run|
  {
    if run == [] then heard
    else
      var e := run[0].event;
      var now := if (e.SecureConnect? && heard.None?) || (e.Data? && heard.Some?) then Some(run[0].at) else heard;
      LastHeard(run[1..], now)
  }

  /** How long a silence ends the wait: three quarters of a second after a handshake alone,
      two seconds when an answer is awaited. */
  function Patience(o: Options): nat {
    if o.asks then 2000 else 750
  }

  lemma StepHears(o: Options, s: State, sent: seq<byte>, t: Timed, heard: Option<nat>)
    requires Waiting(o, s, sent)
    requires s.graceTimer == if heard.None? then None else Some(heard.value + Patience(o))
    ensures var d := Step(o, s, t.event, t.at);
            var e := t.event;
            var now := if (e.SecureConnect? && heard.None?) || (e.Data? && heard.Some?) then Some(t.at) else heard;
            !d.settled ==>
              d.graceTimer == (if now.None? then None else Some(now.value + Patience(o)))
  {
    hide ParseHttpResponse;
  }

  lemma {:induction false} PatienceRuns(o: Options, s: State, sent: seq<byte>, run: seq<Timed>, heard: Option<nat>)
    requires Waiting(o, s, sent)
    requires s.graceTimer == if heard.None? then None else Some(heard.value + Patience(o))
    ensures var d := Run(o, s, run);
            var last := LastHeard(run, heard);
            !d.settled ==> d.graceTimer == (if last.None? then None else Some(last.value + Patience(o)))
    decreases |run|
  {
    if run != [] {
      hide Step, Verdict, Waiting;
      assert [run[0]] + run[1..] == run;
      StepVerdict(o, s, sent, run[0], run[1..]);
      StepHears(o, s, sent, run[0], heard);
      var d, e := Step(o, s, run[0].event, run[0].at), run[0].event;
      if d.settled {
        SettledStays(o, d, run[1..]);
      } else {
        var more := sent + if e.Data? && s.report.Some? then e.chunk else [];
        var now := if (e.SecureConnect? && heard.None?) || (e.Data? && heard.Some?) then Some(run[0].at) else heard;
        PatienceRuns(o, d, more, run[1..], now);
      }
    }
  }

  /** On an ideal clock a wait ends for silence exactly so long after the far end was last
      heard, and every chunk starts it anew. */
  lemma SilenceExactly(o: Options, start: nat, run: seq<Timed>, t: Timed)
    requires OnTime(o, Start(o, start), start, run + [t]) && t.event == GraceTimer
    requires !Run(o, Start(o, start), run).settled
    ensures LastHeard(run, None).Some? && t.at == LastHeard(run, None).value + Patience(o)
  {
    hide LastHeard;
    PatienceRuns(o, Start(o, start), [], run, None);
    var earlier := LastIsPossible(o, Start(o, start), start, run, t);
  }

  lemma {:induction false} LastIsPossible(o: Options, s: State, now: nat, run: seq<Timed>, t: Timed)
    returns (earlier: nat)
    requires OnTime(o, s, now, run + [t])
    ensures Possible(Run(o, s, run), earlier, t)
    decreases |run|
  {
    if run == [] {
      earlier := now;
      assert (run + [t])[0] == t;
    } else {
      assert (run + [t])[0] == run[0] && (run + [t])[1..] == run[1..] + [t];
      earlier := LastIsPossible(o, Step(o, s, run[0].event, run[0].at), run[0].at, run[1..], t);
    }
  }

  /** Nothing ever accepts the connection. */
  predicate Unconnected(run: seq<Timed>) {
    forall i :: 0 <= i < |run| ==> !run[i].event.Connected?
  }

  lemma {:induction false} UnconnectedNeeds(o: Options, s: State, start: nat, now: nat, run: seq<Timed>)
    requires !s.settled && s.outcome.None?
    requires s.connectDeadline == Some(start + o.connectTimeout) && s.callDeadline == Some(start + o.callTimeout)
    requires OnTime(o, s, now, run) && Unconnected(run)
    ensures Run(o, s, run).outcome == Some(Rejected(HandshakeTimeout)) ==> o.callTimeout <= o.connectTimeout
    decreases |run|
  {
    if run != [] {
      hide Step;
      assert !run[0].event.Connected?;
      UnconnectedStep(o, s, run[0].event, run[0].at);
      var t := Step(o, s, run[0].event, run[0].at);
      if t.settled {
        SettledStays(o, t, run[1..]);
      } else {
        UnconnectedNeeds(o, t, start, run[0].at, run[1..]);
      }
    }
  }

  lemma UnconnectedStep(o: Options, s: State, e: Event, now: nat)
    requires !s.settled && s.outcome.None? && !e.Connected?
    ensures var t := Step(o, s, e, now);
            && (t.settled && t.outcome == Some(Rejected(HandshakeTimeout)) ==> e == CallDeadline)
            && (!t.settled ==>
                  t.outcome.None? && t.connectDeadline == s.connectDeadline && t.callDeadline == s.callDeadline)
  {
    hide ParseHttpResponse;
  }

  ghost predicate BlamesHandshake(o: Options, start: nat) {
    exists run :: OnTime(o, Start(o, start), start, run) && Unconnected(run) &&
                  Run(o, Start(o, start), run).outcome == Some(Rejected(HandshakeTimeout))
  }

  /** The refusal for the call deadline says that the connection was accepted. It can be
      given for one that never was if and only if callTimeout is not the longer budget. */
  lemma HandshakeTimeoutExactly(o: Options, start: nat)
    ensures BlamesHandshake(o, start) <==> o.callTimeout <= o.connectTimeout
  {
    var s := Start(o, start);
    if BlamesHandshake(o, start) {
      var run :|
        OnTime(o, s, start, run) && Unconnected(run) && Run(o, s, run).outcome == Some(Rejected(HandshakeTimeout));
      UnconnectedNeeds(o, s, start, start, run);
    }
    if o.callTimeout <= o.connectTimeout {
      var late := Timed(start + o.callTimeout, CallDeadline);
      var t := Step(o, s, late.event, late.at);
      assert [late][1..] == [];
      assert OnTime(o, t, late.at, []) && Possible(s, start, late);
      assert OnTime(o, s, start, [late]);
      assert Run(o, s, [late]) == Run(o, t, []) == t;
    }
  }

  // ------------------------------------------------------------- segmentation

  /** The handshake has completed, the request is written, and `sent` has arrived. */
  ghost predicate Reading(o: Options, s: State, sent: seq<byte>) {
    && o.asks && !s.settled && s.report == Some(Report(false, false, false, None))
    && s.received == sent && s.bytes == |sent| && !s.truncated && |sent| <= o.maxBytes
  }

  datatype Segment = Segment(at: nat, bytes: seq<byte>)

  function Arrivals(segments: seq<Segment>): seq<Timed> {
    if segments == [] then [] else [Timed(segments[0].at, Data(segments[0].bytes))] + Arrivals(segments[1..])
  }

  function Pieces(segments: seq<Segment>): seq<seq<byte>> {
    if segments == [] then [] else [segments[0].bytes] + Pieces(segments[1..])
  }

  function Stream(segments: seq<Segment>): seq<byte> {
    Flatten(Pieces(segments))
  }

  /** However TCP cuts the response before the far end closes, the report is the reading
      of its first min(total, cap) bytes, truncated and ended by the cap exactly when
      there were more. */
  lemma {:induction false} CutsDoNotMatter(o: Options, s: State, sent: seq<byte>, segments: seq<Segment>, close: nat)
    requires Reading(o, s, sent)
    ensures var d := Run(o, s, Arrivals(segments) + [Timed(close, End)]);
            var stream := sent + Stream(segments);
            && d.outcome.Some? && d.outcome.value.Reported? && d.outcome.value.report.answer.Some?
            && var answer := d.outcome.value.report.answer.value;
            && answer.response == ParseHttpResponse(Keep(stream, o.maxBytes))
            && answer.truncated == (|stream| > o.maxBytes)
            && answer.endedBy == (if |stream| > o.maxBytes then Cap else Finished)
    decreases |segments|
  {
    hide ParseHttpResponse;
    var run := Arrivals(segments) + [Timed(close, End)];
    if segments == [] {
      assert run == [Timed(close, End)] && sent + [] == sent;
      assert Run(o, s, run) == Step(o, s, End, close);
    } else {
      var e, rest := segments[0], segments[1..];
      var t := Step(o, s, Data(e.bytes), e.at);
      DataGives(o, s, e.bytes, e.at);
      hide Step;
      assert run[1..] == Arrivals(rest) + [Timed(close, End)];
      assert Pieces(segments)[1..] == Pieces(rest);
      assert sent + Stream(segments) == (sent + e.bytes) + Stream(rest);
      KeepGrows(sent, e.bytes, o.maxBytes);
      if |sent| + |e.bytes| <= o.maxBytes {
        CutsDoNotMatter(o, t, sent + e.bytes, rest, close);
      } else {
        SettledStays(o, t, run[1..]);
        KeepOfMore(sent + e.bytes, Stream(rest), o.maxBytes);
      }
    }
  }

  lemma KeepOfMore(a: seq<byte>, b: seq<byte>, cap: nat)
    requires |a| > cap
    ensures Keep(a + b, cap) == Keep(a, cap)
  {
  }

  lemma KeepOfCut(whole: seq<byte>, n: nat, cap: nat)
    requires n <= |whole|
    ensures Keep(whole[..n], cap) == whole[..if n <= cap then n else cap]
  {
  }

  /** What comes before a response: the connection and the handshake, the request written. */
  function Opening(connect: nat, secure: nat): seq<Timed> {
    [Timed(connect, Connected), Timed(secure, SecureConnect(true))]
  }

  lemma OpeningReads(o: Options, start: nat, connect: nat, secure: nat)
    requires o.asks
    ensures Reading(o, Run(o, Start(o, start), Opening(connect, secure)), [])
  {
    hide ParseHttpResponse;
    var s, run := Start(o, start), Opening(connect, secure);
    var t := Step(o, s, Connected, connect);
    assert run[1..] == [Timed(secure, SecureConnect(true))] && run[1..][1..] == [];
    assert Run(o, s, run) == Run(o, t, run[1..]) == Step(o, t, SecureConnect(true), secure);
  }

  function Least(a: nat, b: nat): nat {
    if a <= b then a else b
  }

  /** A report of the response of which `kept` bytes were kept, `top` of them its head. */
  ghost predicate ReportsPart(outcome: Option<Outcome>, top: nat, kept: nat, chunks: seq<Chunk>, last: seq<byte>) {
    && outcome.Some? && outcome.value.Reported? && outcome.value.report.answer.Some?
    && var response := outcome.value.report.answer.value.response;
    && (response.Read? <==> kept >= top)
    && (response.Read? ==>
          response.body == PayloadWithin(chunks, kept - top) && response.body <= Payload(chunks))
    && (ReportedComplete(response) <==> kept < top || kept >= top + |Wire(chunks, last)|)
  }

  /** A chunked response, end to end and from the start of the call: for every chunking of
      the body, every segmentation, every number `n` of bytes that arrive before the far end
      closes and every cap, the body reported is exactly the part of the true body within
      the first min(n, cap) bytes, and it is reported complete exactly when those bytes hold
      the last-chunk line, or do not even hold the whole head. */
  lemma ChunkedResponseReport(o: Options, start: nat, connect: nat, secure: nat, segments: seq<Segment>, close: nat,
                              head: seq<byte>, chunks: seq<Chunk>, last: seq<byte>, rest: seq<byte>, n: nat)
    requires o.asks
    requires Find(head + BLANK_LINE, BLANK_LINE, 0) == |head| && IsChunked(HeadersOf(head))
    requires ValidChunks(chunks) && SizeLine(last, 0)
    requires n <= |head + BLANK_LINE + (Wire(chunks, last) + rest)|
    requires Stream(segments) == (head + BLANK_LINE + (Wire(chunks, last) + rest))[..n]
    ensures var whole := Opening(connect, secure) + (Arrivals(segments) + [Timed(close, End)]);
            ReportsPart(Run(o, Start(o, start), whole).outcome, |head| + 4, Least(n, o.maxBytes), chunks, last)
  {
    hide ParseHttpResponse, Wire, ValidChunks, SizeLine, Find, IsChunked, HeadersOf, Run, Stream, Keep, Opening;
    hide Arrivals, PayloadWithin, Payload;
    RunAppend(o, Start(o, start), Opening(connect, secure), Arrivals(segments) + [Timed(close, End)]);
    OpeningReads(o, start, connect, secure);
    CutsDoNotMatter(o, Run(o, Start(o, start), Opening(connect, secure)), [], segments, close);
    assert [] + Stream(segments) == Stream(segments);
    KeepOfCut(head + BLANK_LINE + (Wire(chunks, last) + rest), n, o.maxBytes);
    ResponseOfCut(head, chunks, last, rest, Least(n, o.maxBytes));
  }
}
