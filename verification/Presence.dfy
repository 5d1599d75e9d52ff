/** Who is on line, and the chat between them (server/internal/presence/presence.go), over every
    interleaving of the calls: the mutex makes each of them one step. */
module Presence {
  import opened Options

  const BACKLOG := 12
  const ROOM := 32

  /** `at` is 0 for a message not stamped yet. */
  datatype Message = Message(fromId: nat, from: string, text: string, at: int, system: bool)

  /** A connected session; `sub` is the channel it listens on, by its number. */
  datatype Member = Member(handle: string, ip: string, since: int, sub: Option<nat>)

  /** A channel made by `Subscribe`: the recall given with it, what it holds, and what its session has
      received from it. */
  datatype Channel = Channel(recall: seq<Message>, buffer: seq<Message>, taken: seq<Message>)

  datatype State = State(last: nat, members: map<nat, Member>, backlog: seq<Message>, channels: seq<Channel>)

  const EMPTY: State := State(0, map[], [], [])

  datatype Event =
    | Join(handle: string, ip: string, now: int)
    | SetHandle(id: nat, handle: string)
    | Leave(id: nat)
    | Subscribe(id: nat)
    | Unsubscribe(id: nat)
    | Publish(msg: Message, now: int)
    | Receive(channel: nat)

  // ---------------------------------------------------------------- the steps

  function Listening(members: map<nat, Member>, id: nat, sub: Option<nat>): map<nat, Member> {
    if id in members then members[id := members[id].(sub := sub)] else members
  }

  ghost predicate Attached(members: map<nat, Member>, c: nat) {
    exists id :: id in members && members[id].sub == Some(c)
  }

  function Stamped(msg: Message, now: int): Message { if msg.at == 0 then msg.(at := now) else msg }

  function Recalled(backlog: seq<Message>, msg: Message): seq<Message> {
    var more := backlog + [msg];
    if |more| > BACKLOG then more[|more| - BACKLOG..] else more
  }

  /** A send that never blocks: a full channel does without the message. */
  function Sent(ch: Channel, msg: Message): Channel {
    if |ch.buffer| < ROOM then ch.(buffer := ch.buffer + [msg]) else ch
  }

  ghost function Offered(members: map<nat, Member>, channels: seq<Channel>, msg: Message): (after: seq<Channel>)
    ensures |after| == |channels|
  {
    seq(|channels|, c requires 0 <= c < |channels| =>
      if Attached(members, c) then Sent(channels[c], msg) else channels[c])
  }

  function Taken(ch: Channel): Channel {
    if ch.buffer == [] then ch else ch.(buffer := ch.buffer[1..], taken := ch.taken + [ch.buffer[0]])
  }

  ghost function Step(s: State, e: Event): State {
    match e
    case Join(handle, ip, now) =>
      s.(last := s.last + 1, members := s.members[s.last + 1 := Member(handle, ip, now, None)])
    case SetHandle(id, handle) =>
      if id in s.members then s.(members := s.members[id := s.members[id].(handle := handle)]) else s
    case Leave(id) => s.(members := s.members - {id})
    case Subscribe(id) =>
      s.(members := Listening(s.members, id, Some(|s.channels|)), channels := s.channels + [Channel(s.backlog, [], [])])
    case Unsubscribe(id) => s.(members := Listening(s.members, id, None))
    case Publish(msg, now) =>
      s.(backlog := Recalled(s.backlog, Stamped(msg, now)),
          channels := Offered(s.members, s.channels, Stamped(msg, now)))
    case Receive(c) => if c < |s.channels| then s.(channels := s.channels[c := Taken(s.channels[c])]) else s
  }

  ghost function Run(events: seq<Event>): State {
    if events == [] then EMPTY else Step(Run(events[..|events| - 1]), events[|events| - 1])
  }

  // ---------------------------------------------------------------- what has happened

  /** Everything published so far. */
  function History(events: seq<Event>): seq<Message> {
    if events == [] then []
    else
      var front, e := History(events[..|events| - 1]), events[|events| - 1];
      if e.Publish? then front + [Stamped(e.msg, e.now)] else front
  }

  /** How much had been published when channel c was made. */
  ghost function Since(events: seq<Event>, c: nat): nat {
    if events == [] then 0
    else
      var front := events[..|events| - 1];
      if c >= |Run(front).channels| then |History(events)| else Since(front, c)
  }

  /** Which messages were put in channel c. */
  ghost function Picks(events: seq<Event>, c: nat): seq<nat> {
    if events == [] then []
    else
      var front, e := events[..|events| - 1], events[|events| - 1];
      if e.Publish? && Accepts(Run(front), c) then Picks(front, c) + [|History(front)|] else Picks(front, c)
  }

  ghost predicate Accepts(s: State, c: nat) {
    c < |s.channels| && Attached(s.members, c) && |s.channels[c].buffer| < ROOM
  }

  ghost predicate Refuses(s: State, c: nat) {
    c < |s.channels| && Attached(s.members, c) && |s.channels[c].buffer| >= ROOM
  }

  /** How many messages channel c was too full to take. */
  ghost function Missed(events: seq<Event>, c: nat): nat {
    if events == [] then 0
    else
      var front, e := events[..|events| - 1], events[|events| - 1];
      Missed(front, c) + (if e.Publish? && Refuses(Run(front), c) then 1 else 0)
  }

  /** The messages of the history at the given places. */
  function At(history: seq<Message>, picks: seq<nat>): seq<Message>
    requires forall i :: 0 <= i < |picks| ==> picks[i] < |history|
  {
    seq(|picks|, i requires 0 <= i < |picks| => history[picks[i]])
  }

  ghost predicate Increasing(picks: seq<nat>, from: nat, to: nat) {
    && (forall i :: 0 <= i < |picks| ==> from <= picks[i] < to)
    && (forall i, j :: 0 <= i < j < |picks| ==> picks[i] < picks[j])
  }

  // ---------------------------------------------------------------- what every run keeps

  /** Channels belong to at most one session; identifiers and channels are never handed out twice. */
  ghost predicate Consistent(s: State) {
    && (forall id :: id in s.members ==> 1 <= id <= s.last)
    && (forall id, c :: id in s.members && s.members[id].sub == Some(c) ==> c < |s.channels|)
    && (forall id, jd ::
          id in s.members && jd in s.members && s.members[id].sub.Some? && s.members[id].sub == s.members[jd].sub
          ==> id == jd)
    && (forall c :: 0 <= c < |s.channels| ==> |s.channels[c].buffer| <= ROOM)
  }

  lemma StepConsistent(s: State, e: Event)
    requires Consistent(s)
    ensures Consistent(Step(s, e))
  {}

  lemma {:induction false} RunConsistent(events: seq<Event>)
    ensures Consistent(Run(events))
  {
    hide Step, Consistent;
    if events == [] {
      EmptyConsistent();
    } else {
      RunConsistent(events[..|events| - 1]);
      StepConsistent(Run(events[..|events| - 1]), events[|events| - 1]);
    }
  }

  lemma EmptyConsistent()
    ensures Consistent(EMPTY)
  {}

  // ---------------------------------------------------------------- the recall

  function Tail(h: seq<Message>): seq<Message> { if |h| > BACKLOG then h[|h| - BACKLOG..] else h }

  /** The recall is always the last messages published, up to 12. */
  lemma {:induction false} BacklogIsTail(events: seq<Event>)
    ensures Run(events).backlog == Tail(History(events))
  {
    hide Run, Offered, Listening, Recalled, Tail, Stamped;
    RunNext(events);
    if events == [] {
      assert Tail([]) == [] by { NoTail(); }
    } else {
      var front, e := events[..|events| - 1], events[|events| - 1];
      BacklogIsTail(front);
      if e.Publish? { TailNext(History(front), Stamped(e.msg, e.now)); }
    }
  }

  lemma NoTail()
    ensures Tail([]) == []
  {}

  lemma TailNext(h: seq<Message>, msg: Message)
    ensures Recalled(Tail(h), msg) == Tail(h + [msg])
  {
    var more := Tail(h) + [msg];
    if |h| >= BACKLOG {
      assert (h + [msg])[|h| + 1 - BACKLOG..] == h[|h| + 1 - BACKLOG..] + [msg];
    }
  }

  lemma RunNext(events: seq<Event>)
    ensures events == [] ==> Run(events) == EMPTY
    ensures events != [] ==> Run(events) == Step(Run(events[..|events| - 1]), events[|events| - 1])
  {
    hide Step;
  }

  // ---------------------------------------------------------------- one channel

  /** What a step does to channel c. */
  lemma StepChannel(s: State, e: Event, c: nat)
    requires c < |s.channels|
    ensures c < |Step(s, e).channels|
    ensures Step(s, e).channels[c] ==
            if e.Publish? && Accepts(s, c) then s.channels[c].(buffer := s.channels[c].buffer + [Stamped(e.msg, e.now)])
            else if e == Receive(c) then Taken(s.channels[c])
            else s.channels[c]
    ensures Attached(Step(s, e).members, c) ==> Attached(s.members, c)
  {
    hide Attached, Listening, Recalled, Taken, Stamped;
    if Attached(Step(s, e).members, c) { StaysDetached(s, e, c); }
  }

  /** A channel let go of is never listened on again. */
  lemma StaysDetached(s: State, e: Event, c: nat)
    requires c < |s.channels| && Attached(Step(s, e).members, c)
    ensures Attached(s.members, c)
  {
    hide Offered, Recalled, Taken;
    var id :| id in Step(s, e).members && Step(s, e).members[id].sub == Some(c);
    assert id in s.members && s.members[id].sub == Some(c);
  }

  lemma StepGrows(s: State, e: Event)
    ensures |Step(s, e).channels| == |s.channels| + (if e.Subscribe? then 1 else 0)
    ensures Step(s, e).last == s.last + (if e.Join? then 1 else 0)
  {}

  /** A channel is made with the recall of that moment and nothing else. */
  lemma {:induction false} BornWithRecall(events: seq<Event>, c: nat)
    requires c < |Run(events).channels|
    ensures Since(events, c) <= |History(events)|
    ensures Run(events).channels[c].recall == Tail(History(events)[..Since(events, c)])
  {
    hide Run, Step, Tail;
    RunNext(events);
    if events != [] {
      var front, e := events[..|events| - 1], events[|events| - 1];
      if c < |Run(front).channels| {
        BornWithRecall(front, c);
        StepChannel(Run(front), e, c);
        assert History(events)[..Since(front, c)] == History(front)[..Since(front, c)];
      } else {
        BornNow(Run(front), e, c);
        BacklogIsTail(front);
        assert History(events)[..|History(events)|] == History(events) == History(front);
      }
    }
  }

  lemma BornNow(s: State, e: Event, c: nat)
    requires |s.channels| <= c < |Step(s, e).channels|
    ensures e.Subscribe? && Step(s, e).channels[c] == Channel(s.backlog, [], []) && c == |s.channels|
  {}

  lemma {:induction false} NotYetMade(events: seq<Event>, c: nat)
    requires c >= |Run(events).channels|
    ensures Picks(events, c) == [] && Missed(events, c) == 0
            && Since(events, c) == (if events == [] then 0 else |History(events)|)
  {
    hide Run, Step, Attached;
    RunNext(events);
    if events != [] {
      var front, e := events[..|events| - 1], events[|events| - 1];
      StepGrows(Run(front), e);
      NotYetMade(front, c);
    }
  }

  /** What a channel holds and what its session has received are the messages it was given, in the
      order of their publication, none twice, all of them published since the channel was made. */
  lemma {:induction false} InOrder(events: seq<Event>, c: nat)
    requires c < |Run(events).channels|
    ensures Increasing(Picks(events, c), Since(events, c), |History(events)|)
    ensures Run(events).channels[c].taken + Run(events).channels[c].buffer == At(History(events), Picks(events, c))
  {
    hide Run, Step, Accepts, Stamped;
    RunNext(events);
    if events != [] {
      var front, e := events[..|events| - 1], events[|events| - 1];
      if c < |Run(front).channels| {
        InOrder(front, c);
        BornWithRecall(front, c);
        StepChannel(Run(front), e, c);
        AtLonger(History(front), History(events), Picks(front, c));
        if e.Publish? && Accepts(Run(front), c) {
          AtNext(History(front), Stamped(e.msg, e.now), Picks(front, c));
        }
        ChannelStep(Run(front).channels[c], Run(events).channels[c], e);
      } else {
        BornNow(Run(front), e, c);
        NotYetMade(front, c);
      }
    }
  }

  lemma ChannelStep(ch: Channel, after: Channel, e: Event)
    ensures after == Taken(ch) ==> after.taken + after.buffer == ch.taken + ch.buffer
    ensures e.Publish? && after == ch.(buffer := ch.buffer + [Stamped(e.msg, e.now)]) ==>
              after.taken + after.buffer == ch.taken + ch.buffer + [Stamped(e.msg, e.now)]
  {
    hide Stamped;
    if ch.buffer != [] { assert ch.buffer == [ch.buffer[0]] + ch.buffer[1..]; }
  }

  lemma AtLonger(h: seq<Message>, longer: seq<Message>, picks: seq<nat>)
    requires h <= longer && forall i :: 0 <= i < |picks| ==> picks[i] < |h|
    ensures At(longer, picks) == At(h, picks)
  {}

  lemma AtNext(h: seq<Message>, msg: Message, picks: seq<nat>)
    requires forall i :: 0 <= i < |picks| ==> picks[i] < |h|
    ensures At(h + [msg], picks + [|h|]) == At(h, picks) + [msg]
  {}

  /** While a session listens, every message published since its channel was made has either been put
      in the channel or found it full. */
  lemma {:induction false} AllAccounted(events: seq<Event>, c: nat)
    requires c < |Run(events).channels| && Attached(Run(events).members, c)
    ensures |Picks(events, c)| + Missed(events, c) == |History(events)| - Since(events, c)
  {
    hide Run, Step, Attached, Stamped;
    RunNext(events);
    if events != [] {
      var front, e := events[..|events| - 1], events[|events| - 1];
      if c < |Run(front).channels| {
        StepChannel(Run(front), e, c);
        AllAccounted(front, c);
      } else {
        BornNow(Run(front), e, c);
        NotYetMade(front, c);
      }
    }
  }

  /** A channel that was never too full has been given consecutive messages. */
  lemma {:induction false} NoneSkipped(events: seq<Event>, c: nat)
    requires c < |Run(events).channels| && Missed(events, c) == 0
    ensures forall i :: 0 <= i < |Picks(events, c)| ==> Picks(events, c)[i] == Since(events, c) + i
  {
    hide Run, Step, Attached, Stamped;
    RunNext(events);
    if events != [] {
      var front, e := events[..|events| - 1], events[|events| - 1];
      if c < |Run(front).channels| {
        NoneSkipped(front, c);
        if e.Publish? && Accepts(Run(front), c) { AllAccounted(front, c); }
      } else {
        BornNow(Run(front), e, c);
        NotYetMade(front, c);
      }
    }
  }

  // ---------------------------------------------------------------- what a session sees

  /** The recall, then what the session has received, then what waits for it. */
  function Seen(ch: Channel): seq<Message> { ch.recall + ch.taken + ch.buffer }

  /** The place in the history of the first message of the recall. */
  ghost function First(events: seq<Event>, c: nat): nat {
    if Since(events, c) > BACKLOG then Since(events, c) - BACKLOG else 0
  }

  function Range(from: nat, to: nat): (r: seq<nat>)
    requires from <= to
    ensures |r| == to - from && forall i :: 0 <= i < |r| ==> r[i] == from + i
  {
    seq(to - from, i requires 0 <= i => from + i)
  }

  ghost function Places(events: seq<Event>, c: nat): seq<nat> {
    Range(First(events, c), Since(events, c)) + Picks(events, c)
  }

  /** In every run, what a session sees on a channel is part of what was published, in order and
      without repetition. */
  lemma SeenInOrder(events: seq<Event>, c: nat)
    requires c < |Run(events).channels|
    ensures Increasing(Places(events, c), First(events, c), |History(events)|)
    ensures Seen(Run(events).channels[c]) == At(History(events), Places(events, c))
  {
    hide Run, Picks, Since, History;
    InOrder(events, c);
    BornWithRecall(events, c);
    var from, to, h, picks := First(events, c), Since(events, c), History(events), Picks(events, c);
    PlacesIncrease(from, to, picks, |h|);
    AtBoth(h, Range(from, to), picks);
    assert Run(events).channels[c].recall == At(h, Range(from, to)) by { RecallPlaces(h, from, to); }
  }

  lemma RecallPlaces(h: seq<Message>, from: nat, to: nat)
    requires to <= |h| && from == if to > BACKLOG then to - BACKLOG else 0
    ensures Tail(h[..to]) == At(h, Range(from, to)) == h[from..to]
  {}

  lemma PlacesIncrease(from: nat, to: nat, picks: seq<nat>, all: nat)
    requires from <= to <= all && Increasing(picks, to, all)
    ensures Increasing(Range(from, to) + picks, from, all)
  {}

  lemma AtBoth(h: seq<Message>, a: seq<nat>, b: seq<nat>)
    requires forall i :: 0 <= i < |a| ==> a[i] < |h|
    requires forall i :: 0 <= i < |b| ==> b[i] < |h|
    ensures At(h, a + b) == At(h, a) + At(h, b)
  {}

  /** A session whose channel was never too full sees an unbroken piece of what was published. */
  lemma SeenUnbroken(events: seq<Event>, c: nat)
    requires c < |Run(events).channels| && Missed(events, c) == 0
    ensures var seen := Seen(Run(events).channels[c]);
            First(events, c) + |seen| <= |History(events)| &&
            seen == History(events)[First(events, c)..First(events, c) + |seen|]
  {
    hide Run, Picks, Since, History, Seen, Missed;
    SeenInOrder(events, c);
    BornWithRecall(events, c);
    NoneSkipped(events, c);
    var places := Places(events, c);
    Consecutive(History(events), places, First(events, c));
  }

  lemma Consecutive(h: seq<Message>, places: seq<nat>, from: nat)
    requires Increasing(places, from, |h|) && from <= |h|
    requires forall i :: 0 <= i < |places| ==> places[i] == from + i
    ensures from + |places| <= |h| && At(h, places) == h[from..from + |places|]
  {
    if |places| > 0 { assert places[|places| - 1] < |h|; }
  }

  /** While it listens, a session sees everything published from the recall on if and only if its
      channel was never full when a message came. */
  lemma SeesAll(events: seq<Event>, c: nat)
    requires c < |Run(events).channels| && Attached(Run(events).members, c)
    ensures First(events, c) <= |History(events)|
    ensures Seen(Run(events).channels[c]) == History(events)[First(events, c)..] <==> Missed(events, c) == 0
  {
    hide Run, Picks, Since, History, Seen, Missed, Attached;
    SeenInOrder(events, c);
    AllAccounted(events, c);
    BornWithRecall(events, c);
    if Missed(events, c) == 0 { SeenUnbroken(events, c); }
  }

  // ---------------------------------------------------------------- what the messages say

  /** m is the message of a call of `Publish`: sender, name, text and kind are those given, and the time
      is the one given, or that of the call if none is. */
  ghost predicate Carries(m: Message, e: Event) {
    && e.Publish?
    && m.fromId == e.msg.fromId && m.from == e.msg.from && m.text == e.msg.text && m.system == e.msg.system
    && m.at == if e.msg.at != 0 then e.msg.at else e.now
  }

  /** Where in the run the calls of `Publish` are. */
  function Publications(events: seq<Event>): seq<nat> {
    if events == [] then []
    else
      var last := |events| - 1;
      Publications(events[..last]) + (if events[last].Publish? then [last] else [])
  }

  lemma {:induction false} PublicationsAre(events: seq<Event>)
    ensures Increasing(Publications(events), 0, |events|)
    ensures forall k :: 0 <= k < |events| ==> (k in Publications(events) <==> events[k].Publish?)
  {
    if events != [] {
      var last := |events| - 1;
      PublicationsAre(events[..last]);
      assert forall k :: 0 <= k < last ==> events[..last][k] == events[k];
    }
  }

  /** What has been published is what the calls were given, in their order, each once. */
  lemma {:induction false} HistoryCarries(events: seq<Event>)
    ensures |History(events)| == |Publications(events)|
    ensures Increasing(Publications(events), 0, |events|)
    ensures forall i :: 0 <= i < |History(events)| ==> Carries(History(events)[i], events[Publications(events)[i]])
  {
    PublicationsAre(events);
    if events != [] {
      var front, e := events[..|events| - 1], events[|events| - 1];
      HistoryCarries(front);
      assert e.Publish? ==> Carries(Stamped(e.msg, e.now), e);
      hide Carries, Stamped, Increasing;
      forall i | 0 <= i < |History(events)| ensures Carries(History(events)[i], events[Publications(events)[i]]) {
        if i < |History(front)| {
          assert History(events)[i] == History(front)[i] && Publications(events)[i] == Publications(front)[i];
        }
      }
    }
  }

  /** ms are messages of the calls at `sources`, each call once, in the order of the calls. */
  ghost predicate Published(ms: seq<Message>, events: seq<Event>, sources: seq<nat>) {
    && |ms| == |sources| && Increasing(sources, 0, |events|)
    && forall i :: 0 <= i < |ms| ==> Carries(ms[i], events[sources[i]])
  }

  /** The calls whose messages a session sees on channel c. */
  ghost function Sources(events: seq<Event>, c: nat): seq<nat>
    requires c < |Run(events).channels|
  {
    SeenInOrder(events, c);
    HistoryCarries(events);
    Followed(Publications(events), Places(events, c))
  }

  function Followed(places: seq<nat>, picks: seq<nat>): (f: seq<nat>)
    requires forall i :: 0 <= i < |picks| ==> picks[i] < |places|
    ensures |f| == |picks|
  {
    seq(|picks|, i requires 0 <= i < |picks| => places[picks[i]])
  }

  /** In every run, whatever a session has been given as recall, has received, or finds waiting in its
      channel was given to `Publish`, unchanged but for a time where there was none, and comes in the
      order of the calls, none twice. */
  lemma SeenPublished(events: seq<Event>, c: nat)
    requires c < |Run(events).channels|
    ensures var ch := Run(events).channels[c];
            Published(ch.recall + ch.taken + ch.buffer, events, Sources(events, c))
  {
    hide Run, Places, History, Publications, Carries;
    SeenInOrder(events, c);
    HistoryCarries(events);
    var seen := Seen(Run(events).channels[c]);
    forall i | 0 <= i < |seen| ensures Carries(seen[i], events[Sources(events, c)[i]]) {
      assert seen[i] == History(events)[Places(events, c)[i]];
    }
  }

  /** The recall is made of the messages given to the last calls of `Publish`, up to 12. */
  lemma BacklogPublished(events: seq<Event>)
    ensures var all := Publications(events); var n := |Run(events).backlog|;
            && n == (if |all| > 12 then 12 else |all|)
            && Published(Run(events).backlog, events, all[|all| - n..])
  {
    hide Run, Carries, Publications, History;
    BacklogIsTail(events);
    HistoryCarries(events);
  }

  // ---------------------------------------------------------------- who is on line

  /** How many sessions have joined: the last one has that number for identifier. */
  function Joins(events: seq<Event>): nat {
    if events == [] then 0 else Joins(events[..|events| - 1]) + (if events[|events| - 1].Join? then 1 else 0)
  }

  /** How many channels have been made. */
  function Subscriptions(events: seq<Event>): nat {
    if events == [] then 0
    else Subscriptions(events[..|events| - 1]) + (if events[|events| - 1].Subscribe? then 1 else 0)
  }

  lemma {:induction false} Counted(events: seq<Event>)
    ensures Run(events).last == Joins(events) && |Run(events).channels| == Subscriptions(events)
  {
    hide Step;
    RunNext(events);
    if events != [] {
      var front, e := events[..|events| - 1], events[|events| - 1];
      Counted(front);
      StepGrows(Run(front), e);
    }
  }

  /** Event j made the session id, and it has not left. */
  ghost predicate Present(events: seq<Event>, id: nat, j: nat) {
    && j < |events| && events[j].Join? && Joins(events[..j]) + 1 == id
    && forall k :: j < k < |events| ==> events[k] != Leave(id)
  }

  /** The name asked for last, since event j. */
  function LastHandle(events: seq<Event>, id: nat, j: nat): string
    requires j < |events| && events[j].Join?
  {
    var e := events[|events| - 1];
    if |events| == j + 1 then e.handle
    else if e.SetHandle? && e.id == id then e.handle
    else LastHandle(events[..|events| - 1], id, j)
  }

  /** The channel asked for last, since event j, if it has not been given up. */
  function LastChannel(events: seq<Event>, id: nat, j: nat): Option<nat>
    requires j < |events|
  {
    var front, e := events[..|events| - 1], events[|events| - 1];
    if |events| == j + 1 || e == Unsubscribe(id) then None
    else if e == Subscribe(id) then Some(Subscriptions(front))
    else LastChannel(front, id, j)
  }

  /** What a step does to the record of session id. */
  lemma StepMember(s: State, e: Event, id: nat)
    requires Consistent(s)
    ensures var m := Step(s, e).members;
            && (id in m <==> (id in s.members && e != Leave(id)) || (e.Join? && id == s.last + 1))
            && (e.Join? && id == s.last + 1 ==> m[id] == Member(e.handle, e.ip, e.now, None))
            && (id in m && id in s.members ==>
                  m[id] == Member(if e.SetHandle? && e.id == id then e.handle else s.members[id].handle,
                                  s.members[id].ip, s.members[id].since,
                                  if e == Subscribe(id) then Some(|s.channels|)
                                  else if e == Unsubscribe(id) then None else s.members[id].sub))
  {}

  lemma {:induction false} MemberIs(events: seq<Event>, id: nat, j: nat)
    requires Present(events, id, j)
    ensures id in Run(events).members
    ensures Run(events).members[id]
            == Member(LastHandle(events, id, j), events[j].ip, events[j].now, LastChannel(events, id, j))
  {
    hide Run, Step, Joins, Subscriptions, Consistent;
    RunNext(events);
    var front, e := events[..|events| - 1], events[|events| - 1];
    Counted(front);
    RunConsistent(front);
    StepMember(Run(front), e, id);
    if j < |front| {
      assert events[..j] == front[..j];
      MemberIs(front, id, j);
      Below(Run(front), id);
    }
  }

  lemma Below(s: State, id: nat)
    requires Consistent(s) && id in s.members
    ensures id <= s.last
  {}

  lemma {:induction false} SomePresent(events: seq<Event>, id: nat) returns (j: nat)
    requires id in Run(events).members
    ensures Present(events, id, j)
  {
    hide Run, Step, Joins, Subscriptions, Consistent;
    RunNext(events);
    if events == [] {
      assert false;
    } else {
      var front, e := events[..|events| - 1], events[|events| - 1];
      Counted(front);
      RunConsistent(front);
      StepMember(Run(front), e, id);
      if e.Join? && id == Run(front).last + 1 {
        j := |front|;
      } else {
        j := SomePresent(front, id);
        assert events[..j] == front[..j];
      }
    }
  }

  /** In every run, a session is on line if and only if it has joined and not left, with the address and
      the moment it came with, the name it gave itself last and the channel it asked for last. */
  lemma MembersAre(events: seq<Event>, id: nat)
    ensures id in Run(events).members <==> exists j: nat :: Present(events, id, j)
    ensures forall j: nat | Present(events, id, j) ::
              id in Run(events).members &&
              Run(events).members[id]
              == Member(LastHandle(events, id, j), events[j].ip, events[j].now, LastChannel(events, id, j))
  {
    hide Run, LastHandle, LastChannel;
    if id in Run(events).members { var j := SomePresent(events, id); }
    forall j: nat | Present(events, id, j)
      ensures id in Run(events).members &&
              Run(events).members[id]
              == Member(LastHandle(events, id, j), events[j].ip, events[j].now, LastChannel(events, id, j))
    {
      MemberIs(events, id, j);
    }
  }
}
