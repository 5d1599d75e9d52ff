/** `Registry` itself (server/internal/presence/presence.go): members and recall are reassigned,
    channels are filled and emptied in place.  Each method is proved to take the step Presence says. */
module Registry {
  import opened Options
  import opened Presence

  /** A channel with room for 32 messages; `recall` is what `Subscribe` returned with it. */
  class Chan {
    var buffer: seq<Message>
    ghost const recall: seq<Message>
    ghost var taken: seq<Message>

    ghost function Value(): Channel
      reads this
    {
      Channel(recall, buffer, taken)
    }

    constructor (ghost recall: seq<Message>)
      ensures Value() == Channel(recall, [], [])
    {
      this.recall, buffer, taken := recall, [], [];
    }

    /** A send that gives up when there is no room. */
    method TrySend(msg: Message)
      modifies this
      ensures Value() == Sent(old(Value()), msg)
    {
      if |buffer| < ROOM { buffer := buffer + [msg]; }
    }

    /** A receive that does not wait. */
    method TryReceive() returns (msg: Option<Message>)
      modifies this
      ensures Value() == Taken(old(Value()))
      ensures msg == if old(buffer) == [] then None else Some(old(buffer)[0])
    {
      if buffer == [] { return None; }
      msg := Some(buffer[0]);
      taken := taken + [buffer[0]];
      buffer := buffer[1..];
    }
  }

  ghost predicate Distinct(chans: seq<Chan>) { forall c, d :: 0 <= c < d < |chans| ==> chans[c] != chans[d] }

  ghost function Values(chans: seq<Chan>): (vs: seq<Channel>)
    reads chans
    ensures |vs| == |chans|
  {
    seq(|chans|, c requires 0 <= c < |chans| reads chans => chans[c].Value())
  }

  class Registry {
    var last: nat
    var members: map<nat, Member>
    var backlog: seq<Message>
    /** The channels made so far, which members name by their number. */
    var channels: seq<Chan>

    ghost predicate Valid()
      reads this, channels
    {
      Distinct(channels) && Consistent(Value())
    }

    ghost function Value(): State
      reads this, channels
    {
      State(last, members, backlog, Values(channels))
    }

    /** `New` */
    constructor ()
      ensures Valid() && Value() == EMPTY && channels == []
    {
      last, members, backlog, channels := 0, map[], [], [];
    }

    method Join(handle: string, ip: string, now: int) returns (id: nat)
      requires Valid()
      modifies this`last, this`members
      ensures Valid() && Value() == Step(old(Value()), Event.Join(handle, ip, now))
      ensures id == last && id !in old(members)
    {
      ghost var was := Value();
      last := last + 1;
      id := last;
      members := members[id := Member(handle, ip, now, None)];
      StepConsistent(was, Event.Join(handle, ip, now));
    }

    method SetHandle(id: nat, handle: string)
      requires Valid()
      modifies this`members
      ensures Valid() && Value() == Step(old(Value()), Event.SetHandle(id, handle))
    {
      ghost var was := Value();
      if id in members { members := members[id := members[id].(handle := handle)]; }
      StepConsistent(was, Event.SetHandle(id, handle));
    }

    method Leave(id: nat)
      requires Valid()
      modifies this`members
      ensures Valid() && Value() == Step(old(Value()), Event.Leave(id))
    {
      ghost var was := Value();
      members := members - {id};
      StepConsistent(was, Event.Leave(id));
    }

    method Subscribe(id: nat) returns (ch: Chan, recall: seq<Message>)
      requires Valid()
      modifies this`members, this`channels
      ensures Valid() && fresh(ch) && channels == old(channels) + [ch]
      ensures Value() == Step(old(Value()), Event.Subscribe(id))
      ensures recall == ch.recall == old(backlog)
    {
      ghost var was := Value();
      ch := new Chan(backlog);
      if id in members { members := members[id := members[id].(sub := Some(|channels|))]; }
      ghost var before := Values(channels);
      channels := channels + [ch];
      assert Values(channels) == before + [ch.Value()];
      recall := backlog;
      StepConsistent(was, Event.Subscribe(id));
    }

    method Unsubscribe(id: nat)
      requires Valid()
      modifies this`members
      ensures Valid() && Value() == Step(old(Value()), Event.Unsubscribe(id))
    {
      ghost var was := Value();
      if id in members { members := members[id := members[id].(sub := None)]; }
      StepConsistent(was, Event.Unsubscribe(id));
    }

    method Publish(msg: Message, now: int)
      requires Valid()
      modifies this`backlog, channels
      ensures Valid() && Value() == Step(old(Value()), Event.Publish(msg, now))
    {
      ghost var was := Value();
      var stamped := if msg.at == 0 then msg.(at := now) else msg;
      backlog := backlog + [stamped];
      if |backlog| > BACKLOG { backlog := backlog[|backlog| - BACKLOG..]; }
      Spread(members, channels, stamped);
      StepConsistent(was, Event.Publish(msg, now));
    }
  }

  /** Some of the members listen on channel c. */
  ghost predicate Heard(members: map<nat, Member>, done: set<nat>, c: nat) {
    exists id :: id in done && id in members && members[id].sub == Some(c)
  }

  /** The loop of `Publish`, over the members in any order. */
  method Spread(members: map<nat, Member>, channels: seq<Chan>, msg: Message)
    requires Distinct(channels)
    requires forall id, c :: id in members && members[id].sub == Some(c) ==> c < |channels|
    requires forall id, jd ::
               id in members && jd in members && members[id].sub.Some? && members[id].sub == members[jd].sub
               ==> id == jd
    modifies channels
    ensures Values(channels) == Offered(members, old(Values(channels)), msg)
  {
    ghost var was := Values(channels);
    var todo := members.Keys;
    while todo != {}
      invariant todo <= members.Keys
      invariant forall c :: 0 <= c < |channels| ==>
        channels[c].Value() == if Heard(members, members.Keys - todo, c) then Sent(was[c], msg) else was[c]
    {
      var id :| id in todo;
      var sub := members[id].sub;
      if sub.Some? { channels[sub.value].TrySend(msg); }
      todo := todo - {id};
    }
  }
}
