/** api/ssf_receiver.js as it is: a map of inboxes changed in place, refining SsfStore. */
module SsfReceiver {
  import opened Bytes
  import opened Text
  import opened SsfStore

  /** One inbox of the module-level map. */
  class Box {
    const labelText: string
    const createdAt: nat
    var lastPushAt: nat
    var pushes: nat
    var dropped: nat
    var events: seq<Event>

    function View(): Inbox
      reads this
    {
      Inbox(labelText, createdAt, lastPushAt, pushes, dropped, events)
    }

    constructor (labelText: string, now: nat)
      ensures View() == Inbox(labelText, now, 0, 0, 0, [])
    {
      this.labelText, createdAt := labelText, now;
      lastPushAt, pushes, dropped, events := 0, 0, 0, [];
    }

    method Add(e: Event, maxEvents: nat)
      modifies this
      ensures View() == Push(old(View()), e, maxEvents)
    {
      if |events| >= maxEvents && |events| > 0 {
        events := events[1..];
        dropped := dropped + 1;
      }
      events := events + [e];
      pushes := pushes + 1;
      lastPushAt := e.at;
    }

    method Empty() returns (gone: nat)
      modifies this
      ensures View() == old(View()).(events := []) && gone == |old(events)|
    {
      gone := |events|;
      events := [];
    }
  }

  class Receiver {
    const cfg: Config
    var inboxes: map<string, Box>

    /** Different ids never share an inbox. */
    ghost predicate Valid()
      reads this
    {
      forall a, b :: a in inboxes && b in inboxes && a != b ==> inboxes[a] != inboxes[b]
    }

    ghost function View(): Store
      reads this, inboxes.Values
    {
      map id | id in inboxes :: inboxes[id].View()
    }

    constructor (cfg: Config)
      ensures Valid() && this.cfg == cfg && View() == map[]
    {
      this.cfg, inboxes := cfg, map[];
    }

    /** `inboxes.forEach` deleting what has expired. */
    method DropExpired(now: nat)
      requires Valid()
      modifies this
      ensures Valid() && inboxes.Values <= old(inboxes.Values)
      ensures View() == Sweep(old(View()), cfg.ttl, now)
    {
      var left := inboxes.Keys;
      while left != {}
        invariant left <= inboxes.Keys <= old(inboxes.Keys)
        invariant forall id :: id in inboxes ==> inboxes[id] == old(inboxes)[id]
        invariant forall id :: id in old(inboxes) && id !in left ==>
                    (id in inboxes <==> now <= old(inboxes)[id].createdAt + cfg.ttl)
        decreases left
      {
        var id :| id in left;
        left := left - {id};
        if now > inboxes[id].createdAt + cfg.ttl {
          inboxes := inboxes - {id};
        }
      }
    }

    method Create(id: string, labelText: string, now: nat) returns (r: Response)
      requires Valid()
      modifies this
      ensures Valid()
      ensures forall b :: b in inboxes.Values ==> b in old(inboxes.Values) || fresh(b)
      ensures (View(), r) == Apply(cfg, old(View()), Op.Create(id, labelText, now))
    {
      CreateGives(cfg, View(), id, labelText, now);
      hide Sweep, Apply, FirstChars;
      if !cfg.enabled {
        return Refused(Disabled);
      }
      DropExpired(now);
      SizeOfView();
      if |inboxes| >= cfg.maxInboxes {
        return Refused(AtInboxLimit);
      }
      var inbox := Add(id, FirstChars(labelText, 200), now);
      return Created(inbox);
    }

    /** `inboxes[id] =` a box of its own. */
    method Add(id: string, labelText: string, now: nat) returns (inbox: Inbox)
      requires Valid()
      modifies this
      ensures Valid()
      ensures forall b :: b in inboxes.Values ==> b in old(inboxes.Values) || fresh(b)
      ensures inbox == Inbox(labelText, now, 0, 0, 0, []) && View() == old(View())[id := inbox]
    {
      var box := new Box(labelText, now);
      inboxes := inboxes[id := box];
      return box.View();
    }

    lemma SizeOfView()
      ensures |View()| == |inboxes|
    {
      assert View().Keys == inboxes.Keys;
      assert |View()| == |View().Keys| && |inboxes| == |inboxes.Keys|;
    }

    method Deliver(id: string, body: string, now: nat) returns (r: Response)
      requires Valid()
      modifies this, inboxes.Values
      ensures Valid() && inboxes.Values <= old(inboxes.Values)
      ensures (View(), r) == Apply(cfg, old(View()), Op.Deliver(id, body, now))
    {
      hide Trim, Utf8Length;
      if !cfg.enabled {
        return Refused(Disabled);
      }
      DropExpired(now);
      ghost var swept := View();
      if id !in inboxes {
        return Refused(NoSuchInbox);
      }
      var text := Trim(body);
      if text == "" {
        return Refused(EmptyBody);
      }
      var size := Utf8Length(text);
      if size > cfg.maxEventBytes {
        return Refused(TooLarge);
      }
      inboxes[id].Add(Event(now, text, size), cfg.maxEvents);
      assert View() == swept[id := Push(swept[id], Event(now, text, size), cfg.maxEvents)];
      return Accepted;
    }

    method Drain(id: string, after: Option<real>, now: nat) returns (r: Response)
      requires Valid()
      modifies this
      ensures Valid() && inboxes.Values <= old(inboxes.Values)
      ensures (View(), r) == Apply(cfg, old(View()), Op.Drain(id, after, now))
    {
      DropExpired(now);
      ghost var swept := View();
      if id !in inboxes {
        return Refused(NoSuchInbox);
      }
      var box := inboxes[id];
      var from := if after.Some? then after.value else 0.0;
      if from < 0.0 {
        from := 0.0;
      }
      if from > |box.events| as real {
        from := |box.events| as real;
      }
      return Drained(from, box.events[from.Floor..], |box.events|);
    }

    method Clear(id: string, now: nat) returns (r: Response)
      requires Valid()
      modifies this, inboxes.Values
      ensures Valid() && inboxes.Values <= old(inboxes.Values)
      ensures (View(), r) == Apply(cfg, old(View()), Op.Clear(id, now))
    {
      ClearGives(cfg, View(), id, now);
      hide Sweep, Apply;
      DropExpired(now);
      ghost var swept := View();
      if id !in inboxes {
        return Refused(NoSuchInbox);
      }
      var gone := inboxes[id].Empty();
      assert View() == swept[id := swept[id].(events := [])];
      return Cleared(gone);
    }

    method Remove(id: string, now: nat) returns (r: Response)
      requires Valid()
      modifies this
      ensures Valid() && inboxes.Values <= old(inboxes.Values)
      ensures (View(), r) == Apply(cfg, old(View()), Op.Remove(id, now))
    {
      DropExpired(now);
      ghost var swept := View();
      var existed := id in inboxes;
      inboxes := inboxes - {id};
      assert View() == swept - {id};
      return Removed(existed);
    }

    method Reset() returns (r: Response)
      requires Valid()
      modifies this
      ensures Valid() && inboxes.Values <= old(inboxes.Values)
      ensures (View(), r) == Apply(cfg, old(View()), Op.Reset)
    {
      SizeOfView();
      var gone := |inboxes|;
      inboxes := map[];
      return Emptied(gone);
    }
  }
}
