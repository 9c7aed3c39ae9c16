/** api/ssf_receiver.js on values: what each call does to the inboxes, and what every run keeps. */
module SsfStore {
  import opened Bytes
  import opened Text

  /** The settings, each a positive number by the time they are used. */
  datatype Config = Config(enabled: bool, ttl: nat, maxInboxes: nat, maxEvents: nat, maxEventBytes: nat)

  datatype Event = Event(at: nat, token: string, bytes: nat)

  datatype Inbox = Inbox(
    labelText: string,
    createdAt: nat,
    lastPushAt: nat,
    pushes: nat,
    dropped: nat,
    events: seq<Event>)

  type Store = map<string, Inbox>

  datatype Reason = Disabled | AtInboxLimit | NoSuchInbox | EmptyBody | TooLarge

  /** `after` is None where it is not a finite number; it need not be an integer. */
  datatype Op =
    | Create(id: string, labelText: string, now: nat)
    | Deliver(id: string, body: string, now: nat)
    | Drain(id: string, after: Option<real>, now: nat)
    | Clear(id: string, now: nat)
    | Remove(id: string, now: nat)
    | Reset

  datatype Response =
    | Created(inbox: Inbox) | Accepted | Drained(from: real, events: seq<Event>, total: nat)
    | Cleared(count: nat) | Removed(existed: bool) | Emptied(count: nat)
    | Refused(reason: Reason)

  /** `Buffer.byteLength(text, 'utf8')` */
  function Utf8Length(s: string): nat {
    if s == "" then 0
    else
      var c := s[|s| - 1] as int;
      Utf8Length(s[..|s| - 1]) + if c < 0x80 then 1 else if c < 0x800 then 2 else if c < 0x1_0000 then 3 else 4
  }

  function FirstChars(s: string, n: nat): string {
    if |s| > n then s[..n] else s
  }

  predicate Expired(inbox: Inbox, ttl: nat, now: nat) {
    now > inbox.createdAt + ttl
  }

  function Sweep(store: Store, ttl: nat, now: nat): Store {
    map id | id in store && !Expired(store[id], ttl, now) :: store[id]
  }

  /** Push one event, dropping the oldest first when the inbox is full. */
  function Push(inbox: Inbox, e: Event, maxEvents: nat): Inbox {
    var room :=
      if |inbox.events| >= maxEvents && inbox.events != [] then
        inbox.(events := inbox.events[1..], dropped := inbox.dropped + 1)
      else inbox;
    room.(events := room.events + [e], pushes := room.pushes + 1, lastPushAt := e.at)
  }

  /** The cursor, clamped to what there is; `slice` then drops its fraction. */
  function From(after: Option<real>, length: nat): (from: real)
    ensures 0.0 <= from <= length as real && 0 <= from.Floor <= length
  {
    if after.None? || after.value < 0.0 then 0.0
    else if after.value > length as real then length as real
    else after.value
  }

  function Apply(cfg: Config, store: Store, op: Op): (Store, Response) {
    match op
    case Create(id, labelText, now) =>
      var swept := Sweep(store, cfg.ttl, now);
      if !cfg.enabled then (store, Refused(Disabled))
      else if |swept| >= cfg.maxInboxes then (swept, Refused(AtInboxLimit))
      else
        var inbox := Inbox(FirstChars(labelText, 200), now, 0, 0, 0, []);
        (swept[id := inbox], Created(inbox))
    case Deliver(id, body, now) =>
      var swept := Sweep(store, cfg.ttl, now);
      var text := Trim(body);
      if !cfg.enabled then (store, Refused(Disabled))
      else if id !in swept then (swept, Refused(NoSuchInbox))
      else if text == "" then (swept, Refused(EmptyBody))
      else if Utf8Length(text) > cfg.maxEventBytes then (swept, Refused(TooLarge))
      else (swept[id := Push(swept[id], AcceptedEvent(op), cfg.maxEvents)], Accepted)
    case Drain(id, after, now) =>
      var swept := Sweep(store, cfg.ttl, now);
      if id !in swept then (swept, Refused(NoSuchInbox))
      else
        var events := swept[id].events;
        var from := From(after, |events|);
        (swept, Drained(from, events[from.Floor..], |events|))
    case Clear(id, now) =>
      var swept := Sweep(store, cfg.ttl, now);
      if id !in swept then (swept, Refused(NoSuchInbox))
      else (swept[id := swept[id].(events := [])], Cleared(|swept[id].events|))
    case Remove(id, now) =>
      var swept := Sweep(store, cfg.ttl, now);
      (swept - {id}, Removed(id in swept))
    case Reset => (map[], Emptied(|store|))
  }

  /** What `create` does, answer by answer. */
  lemma CreateGives(cfg: Config, store: Store, id: string, labelText: string, now: nat)
    ensures var swept, inbox := Sweep(store, cfg.ttl, now), Inbox(FirstChars(labelText, 200), now, 0, 0, 0, []);
            Apply(cfg, store, Create(id, labelText, now)) ==
            if !cfg.enabled then (store, Refused(Disabled))
            else if |swept| >= cfg.maxInboxes then (swept, Refused(AtInboxLimit))
            else (swept[id := inbox], Created(inbox))
  {
  }

  lemma ClearGives(cfg: Config, store: Store, id: string, now: nat)
    ensures var swept := Sweep(store, cfg.ttl, now);
            Apply(cfg, store, Clear(id, now)) ==
            if id !in swept then (swept, Refused(NoSuchInbox))
            else (swept[id := swept[id].(events := [])], Cleared(|swept[id].events|))
  {
  }

  // ------------------------------------------------------------------ the log

  /** What a caller who sees the answers knows of one inbox: how it was created, every
      event accepted since, how many of them had been when it was last cleared, and the
      sum of the counts those clears reported. */
  datatype History = History(labelText: string, createdAt: nat, log: seq<Event>, base: nat, cleared: nat)

  type Histories = map<string, History>

  /** The event an accepted delivery stores. */
  function AcceptedEvent(op: Op): Event
    requires op.Deliver?
  {
    Event(op.now, Trim(op.body), Utf8Length(Trim(op.body)))
  }

  /** One call and its answer. */
  function Observe(h: Histories, op: Op, r: Response): Histories {
    if op.Create? && r.Created? then h[op.id := History(FirstChars(op.labelText, 200), op.now, [], 0, 0)]
    else if op.Deliver? && r.Accepted? && op.id in h then
      h[op.id := h[op.id].(log := h[op.id].log + [AcceptedEvent(op)])]
    else if op.Clear? && r.Cleared? && op.id in h then
      h[op.id := h[op.id].(base := |h[op.id].log|, cleared := h[op.id].cleared + r.count)]
    else h
  }

  function Min(a: nat, b: nat): nat {
    if a < b then a else b
  }

  /** The state of an inbox is a function of its log: it holds exactly the newest
      min(maxEvents, accepted since the last clear) events in order, and every push is
      waiting, dropped or cleared. */
  ghost predicate Refines(cfg: Config, inbox: Inbox, h: History) {
    && h.base <= |h.log|
    && |inbox.events| == Min(cfg.maxEvents, |h.log| - h.base)
    && inbox.events == h.log[|h.log| - |inbox.events|..]
    && inbox.pushes == |h.log|
    && inbox.pushes == |inbox.events| + inbox.dropped + h.cleared
    && inbox.lastPushAt == (if h.log == [] then 0 else h.log[|h.log| - 1].at)
    && inbox.createdAt == h.createdAt && inbox.labelText == h.labelText
  }

  ghost predicate Related(cfg: Config, store: Store, h: Histories) {
    && cfg.maxEvents >= 1
    && |store| <= cfg.maxInboxes
    && forall id :: id in store ==> id in h && Refines(cfg, store[id], h[id])
  }

  lemma SubsetSize<T>(a: set<T>, b: set<T>)
    requires a <= b
    ensures |a| <= |b|
  {
    assert a + (b - a) == b;
  }

  lemma FewerKeys(a: Store, b: Store)
    requires a.Keys <= b.Keys
    ensures |a| <= |b|
  {
    SubsetSize(a.Keys, b.Keys);
    assert |a| == |a.Keys| && |b| == |b.Keys|;
  }

  lemma OneMoreKey(a: Store, id: string, inbox: Inbox)
    ensures |a[id := inbox]| <= |a| + 1
    ensures id in a ==> |a[id := inbox]| == |a|
  {
    var b := a[id := inbox];
    assert b.Keys == a.Keys + {id};
    assert |b| == |b.Keys| && |a| == |a.Keys|;
    if id in a { assert a.Keys + {id} == a.Keys; }
  }

  lemma PushRefines(cfg: Config, inbox: Inbox, h: History, e: Event)
    requires cfg.maxEvents >= 1 && Refines(cfg, inbox, h)
    ensures Refines(cfg, Push(inbox, e, cfg.maxEvents), h.(log := h.log + [e]))
  {
    SuffixGrows(h.log, |inbox.events|, e);
    assert (h.log + [e])[|h.log|] == e;
  }

  /** The newest `n` events once another is added: it and all of them, or all but the
      oldest. */
  lemma SuffixGrows<T>(log: seq<T>, n: nat, e: T)
    requires n <= |log|
    ensures log[|log| - n..] + [e] == (log + [e])[|log| - n..]
    ensures n > 0 ==> log[|log| - n..][1..] + [e] == (log + [e])[|log| - n + 1..]
  {
  }

  lemma SweepRelated(cfg: Config, store: Store, h: Histories, now: nat)
    requires Related(cfg, store, h)
    ensures Related(cfg, Sweep(store, cfg.ttl, now), h)
  {
    hide Refines;
    FewerKeys(Sweep(store, cfg.ttl, now), store);
  }

  /** Every call keeps the store refining the log of its answers. */
  lemma ApplyKeeps(cfg: Config, store: Store, h: Histories, op: Op)
    requires Related(cfg, store, h)
    ensures var (after, r) := Apply(cfg, store, op); Related(cfg, after, Observe(h, op, r))
  {
    if op.Reset? {
      hide Related;
      RelatedBasics(cfg, store, h);
    } else {
      SweepRelated(cfg, store, h, op.now);
      hide Related, Apply, Observe;
      match op
      case Create(_, _, _) => AfterCreate(cfg, store, h, op);
      case Deliver(_, _, _) => AfterDeliver(cfg, store, h, op);
      case Clear(_, _) => AfterClear(cfg, store, h, op);
      case _ => AfterOthers(cfg, store, h, op);
    }
  }

  ghost predicate KeptBy(cfg: Config, store: Store, h: Histories, op: Op) {
    var (after, r) := Apply(cfg, store, op);
    Related(cfg, after, Observe(h, op, r))
  }

  lemma AfterCreate(cfg: Config, store: Store, h: Histories, op: Op)
    requires op.Create? && Related(cfg, store, h) && Related(cfg, Sweep(store, cfg.ttl, op.now), h)
    ensures KeptBy(cfg, store, h, op)
  {
    hide Sweep, Push, Utf8Length, Refines, Trim, AcceptedEvent, Related, From;
    var swept := Sweep(store, cfg.ttl, op.now);
    if cfg.enabled && |swept| < cfg.maxInboxes {
      CreateKeeps(cfg, swept, h, op.id, FirstChars(op.labelText, 200), op.now);
    }
  }

  lemma AfterDeliver(cfg: Config, store: Store, h: Histories, op: Op)
    requires op.Deliver? && Related(cfg, store, h) && Related(cfg, Sweep(store, cfg.ttl, op.now), h)
    ensures KeptBy(cfg, store, h, op)
  {
    hide Sweep, Push, Utf8Length, Refines, Trim, AcceptedEvent, Related;
    var swept := Sweep(store, cfg.ttl, op.now);
    RelatedBasics(cfg, swept, h);
    if op.id in swept { DeliverKeeps(cfg, swept, h, op); }
  }

  lemma AfterClear(cfg: Config, store: Store, h: Histories, op: Op)
    requires op.Clear? && Related(cfg, Sweep(store, cfg.ttl, op.now), h)
    ensures KeptBy(cfg, store, h, op)
  {
    hide Sweep, Apply, Related, Observe;
    ClearGives(cfg, store, op.id, op.now);
    assert op == Clear(op.id, op.now);
    var swept := Sweep(store, cfg.ttl, op.now);
    RelatedBasics(cfg, swept, h);
    if op.id in swept {
      ClearKeeps(cfg, swept, h, op.id);
      ClearObserved(h, op, |swept[op.id].events|, NoSuchInbox);
    } else {
      ClearObserved(h, op, 0, NoSuchInbox);
    }
  }

  lemma ClearObserved(h: Histories, op: Op, count: nat, reason: Reason)
    requires op.Clear?
    ensures op.id in h ==>
              Observe(h, op, Cleared(count)) ==
              h[op.id := h[op.id].(base := |h[op.id].log|, cleared := h[op.id].cleared + count)]
    ensures Observe(h, op, Refused(reason)) == h
  {
  }

  lemma AfterOthers(cfg: Config, store: Store, h: Histories, op: Op)
    requires (op.Drain? || op.Remove?) && Related(cfg, Sweep(store, cfg.ttl, op.now), h)
    ensures KeptBy(cfg, store, h, op)
  {
    hide Sweep, Push, Utf8Length, Refines, Trim, AcceptedEvent, Related, From;
    if op.Remove? { RemoveKeeps(cfg, Sweep(store, cfg.ttl, op.now), h, op.id); }
  }

  lemma RelatedBasics(cfg: Config, store: Store, h: Histories)
    requires Related(cfg, store, h)
    ensures Related(cfg, map[], h) && forall id :: id in store ==> id in h
  {
  }

  lemma RemoveKeeps(cfg: Config, swept: Store, h: Histories, id: string)
    requires Related(cfg, swept, h)
    ensures Related(cfg, swept - {id}, h)
  {
    hide Refines;
    FewerKeys(swept - {id}, swept);
  }

  lemma DeliverKeeps(cfg: Config, swept: Store, h: Histories, op: Op)
    requires op.Deliver? && op.id in swept && Related(cfg, swept, h)
    ensures Related(cfg, swept[op.id := Push(swept[op.id], AcceptedEvent(op), cfg.maxEvents)],
                    h[op.id := h[op.id].(log := h[op.id].log + [AcceptedEvent(op)])])
  {
    hide Push, Utf8Length, Refines, Trim, AcceptedEvent;
    PushRefines(cfg, swept[op.id], h[op.id], AcceptedEvent(op));
    OneMoreKey(swept, op.id, Push(swept[op.id], AcceptedEvent(op), cfg.maxEvents));
  }

  lemma ClearKeeps(cfg: Config, swept: Store, h: Histories, id: string)
    requires id in swept && Related(cfg, swept, h)
    ensures Related(cfg, swept[id := swept[id].(events := [])],
                    h[id := h[id].(base := |h[id].log|, cleared := h[id].cleared + |swept[id].events|)])
  {
    hide Refines;
    ClearRefines(cfg, swept[id], h[id]);
    OneMoreKey(swept, id, swept[id].(events := []));
  }

  lemma ClearRefines(cfg: Config, inbox: Inbox, h: History)
    requires Refines(cfg, inbox, h)
    ensures Refines(cfg, inbox.(events := []), h.(base := |h.log|, cleared := h.cleared + |inbox.events|))
  {
  }

  lemma CreateKeeps(cfg: Config, swept: Store, h: Histories, id: string, labelText: string, now: nat)
    requires Related(cfg, swept, h) && |swept| < cfg.maxInboxes
    ensures Related(cfg, swept[id := Inbox(labelText, now, 0, 0, 0, [])], h[id := History(labelText, now, [], 0, 0)])
  {
    OneMoreKey(swept, id, Inbox(labelText, now, 0, 0, 0, []));
  }

  // ---------------------------------------------------------------- every run

  function Run(cfg: Config, store: Store, ops: seq<Op>): Store
    decreases |ops|
  {
    if ops == [] then store else Run(cfg, Apply(cfg, store, ops[0]).0, ops[1..])
  }

  function Answers(cfg: Config, store: Store, ops: seq<Op>): seq<Response>
    decreases |ops|
  {
    if ops == [] then []
    else
      var (after, r) := Apply(cfg, store, ops[0]);
      [r] + Answers(cfg, after, ops[1..])
  }

  function Watch(h: Histories, ops: seq<Op>, answers: seq<Response>): Histories
    requires |ops| == |answers|
    decreases |ops|
  {
    if ops == [] then h else Watch(Observe(h, ops[0], answers[0]), ops[1..], answers[1..])
  }

  /** Over every sequence of calls the store refines the log kept by watching the answers:
      the caps hold, and pushes = waiting + dropped + cleared for every inbox. */
  lemma {:induction false} EveryRun(cfg: Config, store: Store, h: Histories, ops: seq<Op>)
    requires Related(cfg, store, h)
    ensures var answers := Answers(cfg, store, ops);
            |answers| == |ops| && Related(cfg, Run(cfg, store, ops), Watch(h, ops, answers))
    decreases |ops|
  {
    if ops != [] {
      hide Related, Apply, Observe;
      ApplyKeeps(cfg, store, h, ops[0]);
      var (after, r) := Apply(cfg, store, ops[0]);
      EveryRun(cfg, after, Observe(h, ops[0], r), ops[1..]);
      assert Answers(cfg, store, ops)[1..] == Answers(cfg, after, ops[1..]);
    }
  }

  lemma NothingHeldIsRelated(cfg: Config)
    requires cfg.maxEvents >= 1
    ensures Related(cfg, map[], map[])
  {
  }

  /** Of every sequence of calls from a fresh start: no more inboxes than the cap, and in
      each exactly the newest events accepted since its last clear, in order, no more than
      the cap, with every push waiting, dropped or cleared. */
  lemma FromEmpty(cfg: Config, ops: seq<Op>, id: string)
    requires cfg.maxEvents >= 1
    ensures |Run(cfg, map[], ops)| <= cfg.maxInboxes
    ensures |Answers(cfg, map[], ops)| == |ops|
    ensures var store, known := Run(cfg, map[], ops), Watch(map[], ops, Answers(cfg, map[], ops));
            id in store ==>
              && id in known && known[id].base <= |known[id].log|
              && |store[id].events| == Min(cfg.maxEvents, |known[id].log| - known[id].base)
              && store[id].events == known[id].log[|known[id].log| - |store[id].events|..]
              && store[id].pushes == |store[id].events| + store[id].dropped + known[id].cleared == |known[id].log|
  {
    hide Run, Watch, Answers;
    NothingHeldIsRelated(cfg);
    EveryRun(cfg, map[], map[], ops);
  }

  /** A call that names another inbox, or none. */
  predicate Elsewhere(op: Op, id: string) {
    op.Reset? || op.id != id
  }

  /** An inbox that has not expired is lost only to `remove`, `reset` or an id drawn twice,
      and a call on one inbox leaves every other untouched. */
  lemma NoneLostNoneTouched(cfg: Config, store: Store, op: Op, id: string)
    requires id in store
    ensures var after := Apply(cfg, store, op).0;
            && (id !in after ==>
                  op.Reset? || (op.Remove? && op.id == id) || op.now > store[id].createdAt + cfg.ttl)
            && (id in after && Elsewhere(op, id) ==> after[id] == store[id])
            && (id in after ==> after[id].createdAt == store[id].createdAt || op.Create?)
  {
    hide Utf8Length, Trim;
  }

  /** The calls that begin with a sweep: all but `reset`, and the two that look whether
      receivers are hosted at all before anything else. */
  predicate Sweeps(cfg: Config, op: Op) {
    !op.Reset? && (op.Create? || op.Deliver? ==> cfg.enabled)
  }

  /** The inboxes of a store that are still alive. */
  function Alive(store: Store, ttl: nat, now: nat): set<string> {
    set id | id in store && now <= store[id].createdAt + ttl
  }

  /** No inbox outlives its time: after a call that sweeps, all that is held is alive then,
      and every inbox that was is held still unless the call removes it. */
  lemma NoneOutlives(cfg: Config, store: Store, op: Op)
    requires Sweeps(cfg, op)
    ensures var after := Apply(cfg, store, op).0;
            && (forall id :: id in after ==> op.now <= after[id].createdAt + cfg.ttl)
            && (forall id :: id in Alive(store, cfg.ttl, op.now) && !(op.Remove? && id == op.id) ==> id in after)
            && (forall id :: id in after && id !in store ==> op.Create? && id == op.id)
  {
    hide Utf8Length, Trim;
  }

  /** An expired inbox is answered as one that never was, by every call that names it. */
  lemma ExpiredIsUnknown(cfg: Config, store: Store, op: Op)
    requires op.Deliver? || op.Drain? || op.Clear? || op.Remove?
    requires op.id !in Alive(store, cfg.ttl, op.now)
    ensures Apply(cfg, store, op).1 ==
            if op.Remove? then Removed(false)
            else if op.Deliver? && !cfg.enabled then Refused(Disabled)
            else Refused(NoSuchInbox)
  {
    hide Utf8Length, Trim;
  }

  /** A removed inbox is gone, and the answer says whether there was one alive. */
  lemma RemovedIsGone(cfg: Config, store: Store, id: string, now: nat)
    ensures var (after, r) := Apply(cfg, store, Remove(id, now));
            id !in after && r == Removed(id in Alive(store, cfg.ttl, now))
  {
  }

  /** A reset empties the store, alive or not, and says how many there were. */
  lemma ResetExactly(cfg: Config, store: Store)
    ensures var (after, r) := Apply(cfg, store, Reset); after == map[] && r == Emptied(|store.Keys|)
  {
  }

  /** An inbox is refused for want of room exactly when as many as the cap are alive. */
  lemma RefusedForRoom(cfg: Config, store: Store, id: string, labelText: string, now: nat)
    ensures var r := Apply(cfg, store, Create(id, labelText, now)).1;
            && (r == Refused(AtInboxLimit) <==> cfg.enabled && |Alive(store, cfg.ttl, now)| >= cfg.maxInboxes)
            && (r.Created? <==> cfg.enabled && |Alive(store, cfg.ttl, now)| < cfg.maxInboxes)
            && (r == Refused(Disabled) <==> !cfg.enabled)
  {
    var swept := Sweep(store, cfg.ttl, now);
    assert swept.Keys == Alive(store, cfg.ttl, now);
    assert |swept| == |swept.Keys|;
  }

  /** What a drain shows: the cursor held to what there is, and every event from there on,
      a fraction of an event counting as the whole; and it changes nothing. */
  lemma DrainExactly(cfg: Config, store: Store, id: string, after: Option<real>, now: nat)
    requires id in Alive(store, cfg.ttl, now)
    ensures var (left, r) := Apply(cfg, store, Drain(id, after, now));
            && id in left && left[id] == store[id]
            && r.Drained? && r.total == |store[id].events|
            && 0 <= r.from.Floor <= r.total && r.events == store[id].events[r.from.Floor..]
            && (after.None? || after.value < 0.0 ==> r.from == 0.0)
            && (after.Some? && 0.0 <= after.value <= r.total as real ==> r.from == after.value)
            && (after.Some? && after.value > r.total as real ==> r.from == r.total as real)
  {
  }

  /** What a clear does: the events go, their number is reported, and nothing else changes. */
  lemma ClearExactly(cfg: Config, store: Store, id: string, now: nat)
    requires id in Alive(store, cfg.ttl, now)
    ensures var (left, r) := Apply(cfg, store, Clear(id, now));
            && id in left && r == Cleared(|store[id].events|)
            && left[id] == Inbox(store[id].labelText, store[id].createdAt, store[id].lastPushAt, store[id].pushes,
                                 store[id].dropped, [])
  {
    ClearGives(cfg, store, id, now);
  }

  /** Text without its surrounding white space. */
  ghost predicate IsCore(text: string, core: string) {
    && (exists before, after :: text == before + core + after && AllSpace(before) && AllSpace(after))
    && (core == "" || (!IsSpace(core[0]) && !IsSpace(core[|core| - 1])))
  }

  /** When a delivery is refused, and for what; and what one that is not leaves behind: the
      token as sent without surrounding white space, its size in UTF-8 and its time. */
  lemma DeliveryExactly(cfg: Config, store: Store, id: string, body: string, now: nat) returns (core: string)
    ensures IsCore(body, core)
    ensures var (after, r) := Apply(cfg, store, Deliver(id, body, now));
            && r == (if !cfg.enabled then Refused(Disabled)
                     else if id !in Alive(store, cfg.ttl, now) then Refused(NoSuchInbox)
                     else if core == "" then Refused(EmptyBody)
                     else if |Utf8(core)| > cfg.maxEventBytes then Refused(TooLarge)
                     else Accepted)
            && (r == Accepted ==>
                  && id in after && after[id].events != []
                  && after[id].events[|after[id].events| - 1] == Event(now, core, |Utf8(core)|)
                  && after[id].lastPushAt == now)
  {
    core := Trim(body);
    var before, rest := TrimExactly(body);
    Utf8LengthIs(core);
    hide Trim, Utf8Length, Utf8, AllSpace, IsSpace;
  }

  /** The bytes of one character (section 3 of RFC 3629). */
  function Utf8Char(c: char): seq<byte> {
    var n := c as int;
    if n < 0x80 then [n]
    else if n < 0x800 then [0xc0 + n / 0x40, 0x80 + n % 0x40]
    else if n < 0x1_0000 then [0xe0 + n / 0x1000, 0x80 + n / 0x40 % 0x40, 0x80 + n % 0x40]
    else [0xf0 + n / 0x4_0000, 0x80 + n / 0x1000 % 0x40, 0x80 + n / 0x40 % 0x40, 0x80 + n % 0x40]
  }

  function Utf8(s: string): seq<byte> {
    if s == "" then [] else Utf8(s[..|s| - 1]) + Utf8Char(s[|s| - 1])
  }

  lemma {:induction false} Utf8LengthIs(s: string)
    ensures Utf8Length(s) == |Utf8(s)|
  {
    if s != "" {
      Utf8LengthIs(s[..|s| - 1]);
    }
  }

  /** The label kept is the one given, cut after two hundred characters. */
  lemma LabelKept(cfg: Config, store: Store, id: string, labelText: string, now: nat)
    ensures var (after, r) := Apply(cfg, store, Create(id, labelText, now));
            r.Created? ==>
              && id in after && after[id] == r.inbox
              && r.inbox.labelText <= labelText
              && |r.inbox.labelText| == (if |labelText| <= 200 then |labelText| else 200)
              && r.inbox.createdAt == now && r.inbox.lastPushAt == 0 && r.inbox.pushes == 0
              && r.inbox.dropped == 0 && r.inbox.events == []
  {
    CreateGives(cfg, store, id, labelText, now);
    hide Sweep, Apply;
  }

  /** Over every sequence of calls from a fresh start: an inbox is refused for want of room
      only while as many as the cap, all of them alive, are held. */
  lemma RoomOverRun(cfg: Config, ops: seq<Op>, id: string, labelText: string, now: nat)
    requires cfg.maxEvents >= 1
    ensures var store := Run(cfg, map[], ops);
            Apply(cfg, store, Create(id, labelText, now)).1 == Refused(AtInboxLimit) ==>
              |store| == cfg.maxInboxes && forall k :: k in store ==> now <= store[k].createdAt + cfg.ttl
  {
    var store := Run(cfg, map[], ops);
    FromEmpty(cfg, ops, id);
    RefusedForRoom(cfg, store, id, labelText, now);
    var alive := Alive(store, cfg.ttl, now);
    assert |store| == |store.Keys|;
    if cfg.maxInboxes <= |alive| {
      SubsetSize(alive, store.Keys);
      SameSize(alive, store.Keys);
    }
  }

  lemma SameSize<T>(a: set<T>, b: set<T>)
    requires a <= b && |a| >= |b|
    ensures a == b
  {
    assert b == a + (b - a);
    assert |b| == |a| + |b - a|;
  }

  /** A call that neither removes `id` nor creates it again, at a time it is still alive. */
  predicate Spares(op: Op, id: string, createdAt: nat, ttl: nat) {
    !op.Reset? && op.now <= createdAt + ttl && !((op.Remove? || op.Create?) && op.id == id)
  }

  lemma {:induction false} SurvivesRun(cfg: Config, store: Store, ops: seq<Op>, id: string)
    requires id in store
    requires forall i :: 0 <= i < |ops| ==> Spares(ops[i], id, store[id].createdAt, cfg.ttl)
    ensures id in Run(cfg, store, ops) && Run(cfg, store, ops)[id].createdAt == store[id].createdAt
    decreases |ops|
  {
    if ops != [] {
      hide Utf8Length, Trim;
      var after := Apply(cfg, store, ops[0]).0;
      assert Spares(ops[0], id, store[id].createdAt, cfg.ttl);
      assert id in after && after[id].createdAt == store[id].createdAt;
      SurvivesRun(cfg, after, ops[1..], id);
    }
  }

  // -------------------------------------------------------------- the cursor

  /** What a reader gets who passes back the total of the last drain. */
  function ReadAfter(inbox: Inbox, cursor: nat): seq<Event> {
    inbox.events[From(Some(cursor as real), |inbox.events|).Floor..]
  }

  /** With no clear since a drain that saw the first `seen` events of the log, the next
      drain returns exactly the events accepted in between if and only if there were none
      or nothing has been evicted since the last clear. */
  lemma CursorIsExact(cfg: Config, inbox: Inbox, h: History, seen: nat)
    requires Refines(cfg, inbox, h) && h.base <= seen <= |h.log|
    ensures ReadAfter(inbox, Min(cfg.maxEvents, seen - h.base)) == h.log[seen..] <==>
            |h.log| == seen || |h.log| - h.base <= cfg.maxEvents
  {
    var cursor := Min(cfg.maxEvents, seen - h.base);
    var at := |h.log| - |inbox.events| + cursor;
    ReadsSuffix(inbox, h.log, cursor);
    SuffixesDiffer(h.log, at, seen);
  }

  lemma ReadsSuffix(inbox: Inbox, log: seq<Event>, cursor: nat)
    requires cursor <= |inbox.events| <= |log| && inbox.events == log[|log| - |inbox.events|..]
    ensures ReadAfter(inbox, cursor) == log[|log| - |inbox.events| + cursor..]
  {
  }

  lemma SuffixesDiffer<T>(s: seq<T>, i: nat, j: nat)
    requires i <= |s| && j <= |s|
    ensures s[i..] == s[j..] <==> i == j
  {
    assert |s[i..]| == |s| - i && |s[j..]| == |s| - j;
  }

  /** A reader who has caught up with a full inbox is never shown another event while it
      stays full, however many are delivered: the cursor stays at the cap. */
  lemma {:induction false} CaughtUpReaderIsStuck(cfg: Config, store: Store, ops: seq<Op>, id: string)
    requires cfg.maxEvents >= 1 && id in store && |store[id].events| == cfg.maxEvents
    requires forall i :: 0 <= i < |ops| ==>
               Spares(ops[i], id, store[id].createdAt, cfg.ttl) && !(ops[i].Clear? && ops[i].id == id)
    ensures id in Run(cfg, store, ops)
    ensures |Run(cfg, store, ops)[id].events| == cfg.maxEvents
    ensures ReadAfter(Run(cfg, store, ops)[id], cfg.maxEvents) == []
    decreases |ops|
  {
    if ops != [] {
      hide Utf8Length, Trim;
      var after := Apply(cfg, store, ops[0]).0;
      assert Spares(ops[0], id, store[id].createdAt, cfg.ttl);
      assert id in after && after[id].createdAt == store[id].createdAt;
      assert |after[id].events| == cfg.maxEvents;
      CaughtUpReaderIsStuck(cfg, after, ops[1..], id);
    }
  }

  function Deliveries(id: string, n: nat): seq<Op> {
    if n == 0 then [] else [Deliver(id, "x", 0)] + Deliveries(id, n - 1)
  }

  lemma DeliverGives(cfg: Config, store: Store, id: string)
    requires cfg.enabled && cfg.maxEventBytes >= 1 && id in store && store[id].createdAt == 0
    ensures var (after, r) := Apply(cfg, store, Deliver(id, "x", 0));
            && r == Accepted && id in after
            && after[id] == Push(store[id], Event(0, "x", 1), cfg.maxEvents)
  {
    hide Push;
    TrimKeeps("x");
    hide Trim;
    assert Utf8Length("x"[..0]) == 0;
    assert Utf8Length("x") == 1;
  }

  lemma {:induction false} Fills(cfg: Config, store: Store, id: string, n: nat)
    requires cfg.enabled && cfg.maxEventBytes >= 1 && id in store && store[id].createdAt == 0
    requires |store[id].events| + n <= cfg.maxEvents
    ensures var filled := Run(cfg, store, Deliveries(id, n));
            id in filled && filled[id].createdAt == 0 && |filled[id].events| == |store[id].events| + n
    decreases n
  {
    if n > 0 {
      hide Apply;
      DeliverGives(cfg, store, id);
      var ops := Deliveries(id, n);
      assert ops[1..] == Deliveries(id, n - 1);
      Fills(cfg, Apply(cfg, store, ops[0]).0, id, n - 1);
    }
  }

  /** It happens under every configuration: create an inbox, fill it, drain it, and the next
      event is accepted and not shown to whoever passes back the total of that drain. */
  lemma LateEventIsNotShown(cfg: Config, id: string)
    requires cfg.enabled && cfg.maxInboxes >= 1 && cfg.maxEvents >= 1 && cfg.maxEventBytes >= 1
    ensures var store := Run(cfg, map[], [Create(id, "", 0)] + Deliveries(id, cfg.maxEvents));
            var drained := Apply(cfg, store, Drain(id, None, 0)).1;
            var (after, r) := Apply(cfg, store, Deliver(id, "x", 0));
            && drained.Drained? && |drained.events| == drained.total == cfg.maxEvents
            && r == Accepted
            && id in after && ReadAfter(after[id], drained.total) == []
  {
    hide Utf8Length, Trim;
    var ops := [Create(id, "", 0)] + Deliveries(id, cfg.maxEvents);
    assert ops[1..] == Deliveries(id, cfg.maxEvents);
    CreateGives(cfg, map[], id, "", 0);
    assert Sweep(map[], cfg.ttl, 0) == map[];
    var created := Apply(cfg, map[], ops[0]).0;
    Fills(cfg, created, id, cfg.maxEvents);
    DeliverGives(cfg, Run(cfg, map[], ops), id);
  }

  /** A reader's place: the cursor it passes back and everything it has been shown. */
  datatype Reader = Reader(cursor: nat, shown: seq<Event>)

  datatype Act = Do(op: Op) | Read(reader: nat, now: nat)

  datatype Session = Session(store: Store, log: seq<Event>, readers: seq<Reader>)

  /** One act on the inbox `id`: any call, or a reader draining with its own cursor. */
  function ActStep(cfg: Config, s: Session, id: string, a: Act): Session
    requires a.Read? ==> a.reader < |s.readers|
  {
    match a
    case Do(op) =>
      var (after, r) := Apply(cfg, s.store, op);
      var log := if op.Deliver? && op.id == id && r.Accepted? then s.log + [AcceptedEvent(op)] else s.log;
      Session(after, log, s.readers)
    case Read(reader, now) =>
      var was := s.readers[reader];
      var (after, r) := Apply(cfg, s.store, Drain(id, Some(was.cursor as real), now));
      Session(after, s.log,
              if r.Drained? then s.readers[reader := Reader(r.total, was.shown + r.events)] else s.readers)
  }

  predicate ActAllowed(s: Session, id: string, a: Act, createdAt: nat, ttl: nat) {
    match a
    case Do(op) => Spares(op, id, createdAt, ttl) && !(op.Clear? && op.id == id)
    case Read(reader, now) => reader < |s.readers| && now <= createdAt + ttl
  }

  /** A run on which the inbox is neither lost nor cleared and never has to evict. */
  predicate Quiet(cfg: Config, s: Session, id: string, acts: seq<Act>, createdAt: nat)
    decreases |acts|
  {
    acts == [] ||
    (ActAllowed(s, id, acts[0], createdAt, cfg.ttl) &&
     var t := ActStep(cfg, s, id, acts[0]);
     |t.log| <= cfg.maxEvents && Quiet(cfg, t, id, acts[1..], createdAt))
  }

  function Play(cfg: Config, s: Session, id: string, acts: seq<Act>, createdAt: nat): Session
    requires Quiet(cfg, s, id, acts, createdAt)
    decreases |acts|
  {
    if acts == [] then s else Play(cfg, ActStep(cfg, s, id, acts[0]), id, acts[1..], createdAt)
  }

  /** Every reader has been shown exactly the log up to its cursor. */
  ghost predicate UpToDate(cfg: Config, s: Session, id: string, createdAt: nat) {
    && id in s.store && s.store[id].createdAt == createdAt
    && s.store[id].events == s.log && |s.log| <= cfg.maxEvents
    && forall i :: 0 <= i < |s.readers| ==>
         s.readers[i].cursor <= |s.log| && s.readers[i].shown == s.log[..s.readers[i].cursor]
  }

  lemma ActKeeps(cfg: Config, s: Session, id: string, a: Act, createdAt: nat)
    requires UpToDate(cfg, s, id, createdAt) && ActAllowed(s, id, a, createdAt, cfg.ttl)
    requires |ActStep(cfg, s, id, a).log| <= cfg.maxEvents
    ensures UpToDate(cfg, ActStep(cfg, s, id, a), id, createdAt)
    ensures a.Read? ==> ActStep(cfg, s, id, a).readers[a.reader].shown == s.log
    ensures s.log <= ActStep(cfg, s, id, a).log
  {
    hide Utf8Length, Trim;
    var t := ActStep(cfg, s, id, a);
    if a.Read? {
      var was := s.readers[a.reader];
      assert s.log[..was.cursor] + s.log[was.cursor..] == s.log;
      assert s.log[..|s.log|] == s.log;
    } else {
      assert id in t.store && t.store[id].createdAt == createdAt;
      assert t.store[id].events == t.log;
      forall i | 0 <= i < |s.readers|
        ensures t.log[..s.readers[i].cursor] == s.log[..s.readers[i].cursor]
      {
      }
    }
  }

  /** Exactly-once delivery: interleave deliveries and reads by any number of readers in
      any order; on a run with no eviction and no clear, each has been shown the accepted
      events once, in order, up to its cursor, and a read shows it all of them. */
  lemma {:induction false} ExactlyOnce(cfg: Config, s: Session, id: string, acts: seq<Act>, createdAt: nat)
    requires UpToDate(cfg, s, id, createdAt) && Quiet(cfg, s, id, acts, createdAt)
    ensures UpToDate(cfg, Play(cfg, s, id, acts, createdAt), id, createdAt)
    ensures acts != [] && acts[|acts| - 1].Read? ==>
              var t := Play(cfg, s, id, acts, createdAt);
              acts[|acts| - 1].reader < |t.readers| && t.readers[acts[|acts| - 1].reader].shown == t.log
    decreases |acts|
  {
    if acts != [] {
      hide UpToDate, ActAllowed;
      ActKeeps(cfg, s, id, acts[0], createdAt);
      var t := ActStep(cfg, s, id, acts[0]);
      ExactlyOnce(cfg, t, id, acts[1..], createdAt);
      if |acts| == 1 {
        ReadKeepsLog(cfg, s, id, acts[0], createdAt);
      } else {
        assert acts[1..][|acts| - 2] == acts[|acts| - 1];
      }
    }
  }

  /** The inbox just created and readers who have read nothing yet. */
  function FreshSession(cfg: Config, store: Store, id: string, labelText: string, now: nat, readers: nat): Session {
    Session(Apply(cfg, store, Create(id, labelText, now)).0, [], seq(readers, _ => Reader(0, [])))
  }

  /** From the creation of an inbox on. */
  lemma ExactlyOnceFromCreation(cfg: Config, store: Store, id: string, labelText: string, now: nat,
                                readers: nat, acts: seq<Act>)
    requires Apply(cfg, store, Create(id, labelText, now)).1.Created?
    requires Quiet(cfg, FreshSession(cfg, store, id, labelText, now, readers), id, acts, now)
    ensures var s := Play(cfg, FreshSession(cfg, store, id, labelText, now, readers), id, acts, now);
            && (forall i :: 0 <= i < |s.readers| ==>
                  s.readers[i].cursor <= |s.log| && s.readers[i].shown == s.log[..s.readers[i].cursor])
            && (acts != [] && acts[|acts| - 1].Read? ==>
                  acts[|acts| - 1].reader < |s.readers| && s.readers[acts[|acts| - 1].reader].shown == s.log)
  {
    hide Quiet, Play;
    ExactlyOnce(cfg, FreshSession(cfg, store, id, labelText, now, readers), id, acts, now);
  }

  lemma ReadKeepsLog(cfg: Config, s: Session, id: string, a: Act, createdAt: nat)
    requires ActAllowed(s, id, a, createdAt, cfg.ttl)
    ensures a.Read? ==> ActStep(cfg, s, id, a).log == s.log && a.reader < |ActStep(cfg, s, id, a).readers|
  {
  }
}
