/** The two ends of XMODEM on one link, round after round: the receiver's idle time, the sender's
    message with what the link does to it, and the receiver's answer with what the link does to that. */
module XmodemLink {
  import opened Options
  import opened Octets
  import opened Crc
  import opened Xmodem

  // ---------------------------------------------------------------- a frame through the receiver

  lemma {:induction false} ReadArriving(bytes: seq<Octet>, rest: seq<Event>)
    ensures ReadFull(Arriving(bytes) + rest, |bytes|) == (Some(bytes), rest)
  {
    if bytes == [] {
      assert Arriving(bytes) + rest == rest;
    } else {
      var input := Arriving(bytes) + rest;
      assert Tail(input) == Arriving(bytes[1..]) + rest;
      ReadArriving(bytes[1..], rest);
      assert bytes == [bytes[0]] + bytes[1..];
    }
  }

  lemma NotNot(x: Octet)
    ensures !!x == x
  {}

  /** A whole frame with an intact header is read as one block, or refused for its check. */
  lemma FrameRead(num: Octet, data: seq<Octet>, check: seq<Octet>, crc: bool, rest: seq<Event>)
    requires |data| == BLOCK && |check| == CheckLength(crc)
    ensures ReadBlock(Arriving([num, !num] + data + check) + rest, crc) ==
            (if Fits(data, check, crc) then Some(Block(data, num)) else None, rest)
  {
    hide ReadFull, Fits;
    var input := Arriving([num, !num] + data + check) + rest;
    assert input == Arriving([num, !num]) + (Arriving(data) + (Arriving(check) + rest));
    ReadArriving([num, !num], Arriving(data) + (Arriving(check) + rest));
    ReadArriving(data, Arriving(check) + rest);
    ReadArriving(check, rest);
    NotNot(num);
  }

  /** A frame takes one pass, whatever comes after it. */
  lemma FramePass(st: Recv, num: Octet, data: seq<Octet>, check: seq<Octet>, rest: seq<Event>)
    requires |data| == BLOCK && |check| == CheckLength(st.crc)
    ensures RecvPass(st, Arriving(Frame(num, data, check)) + rest) ==
            Accept(st.(starting := false), if Fits(data, check, st.crc) then Some(Block(data, num)) else None, rest)
  {
    hide ReadBlock, Fits, Accept;
    FrameRead(num, data, check, st.crc, rest);
    var input := Arriving(Frame(num, data, check)) + rest;
    assert Tail(input) == Arriving([num, !num] + data + check) + rest;
  }

  lemma FrameAlone(st: Recv, num: Octet, data: seq<Octet>, check: seq<Octet>)
    requires |data| == BLOCK && |check| == CheckLength(st.crc)
    ensures RecvPass(st, Arriving(Frame(num, data, check))) ==
            Accept(st.(starting := false), if Fits(data, check, st.crc) then Some(Block(data, num)) else None, [])
  {
    hide RecvPass, Fits, Accept, Frame;
    FramePass(st, num, data, check, []);
    assert Arriving(Frame(num, data, check)) + [] == Arriving(Frame(num, data, check));
  }

  /** What a whole frame leads to: the block expected is taken and acknowledged, or is one too many; the
      block before it is acknowledged again; anything else is refused and changes nothing. */
  lemma FrameAnswered(st: Recv, num: Octet, data: seq<Octet>, check: seq<Octet>, rest: seq<Event>)
    requires |data| == BLOCK && |check| == CheckLength(st.crc)
    ensures var p := RecvPass(st, Arriving([0x01, num, 0xFF - num] + data + check) + rest);
            var good, more := Fits(data, check, st.crc), st.out + data;
            && p.rest == rest && !p.state.starting && p.state.crc == st.crc && p.state.errCount == st.errCount
            && (good && num == st.expected && |more| <= 0x10_0000 ==>
                  p.over == None && p.wrote == [0x06] && p.state.out == more && p.state.expected == num + 1)
            && (good && num == st.expected && |more| > 0x10_0000 ==>
                  p.over == Some(Failed(ErrTooLarge)) && p.wrote == [0x18, 0x18])
            && (good && num + 1 == st.expected ==>
                  p.over == None && p.wrote == [0x06] && p.state.out == st.out && p.state.expected == st.expected)
            && (!good || (num != st.expected && num + 1 != st.expected) ==>
                  p.over == None && p.wrote == [0x15] && p.state.out == st.out && p.state.expected == st.expected)
  {
    hide Fits, RecvPass, Accept, Frame, Arriving;
    FrameIs(num, data, check);
    FramePass(st, num, data, check, rest);
    if Fits(data, check, st.crc) { Accepted(st, num, data, rest); } else { Refused(st, rest); }
  }

  lemma FrameIs(num: Octet, data: seq<Octet>, check: seq<Octet>)
    ensures [0x01, num, 0xFF - num] + data + check == Frame(num, data, check)
  {
    Completes(num);
  }

  lemma Completes(n: Octet)
    ensures 0xFF - n == !n
  {}

  lemma Refused(st: Recv, rest: seq<Event>)
    ensures Accept(st.(starting := false), None, rest) == Pass(st.(starting := false), None, [0x15], rest)
  {}

  lemma Accepted(st: Recv, num: Octet, data: seq<Octet>, rest: seq<Event>)
    ensures var p, st', more := Accept(st.(starting := false), Some(Block(data, num)), rest), st.(starting := false),
                                st.out + data;
            && (num == st.expected && |more| <= 0x10_0000 ==>
                  p == Pass(st'.(out := more, expected := num + 1), None, [0x06], rest))
            && (num == st.expected && |more| > 0x10_0000 ==>
                  p == Pass(st'.(out := more, expected := num + 1), Some(Failed(ErrTooLarge)), [0x18, 0x18], rest))
            && (num + 1 == st.expected ==> p == Pass(st', None, [0x06], rest))
            && (num != st.expected && num + 1 != st.expected ==> p == Pass(st', None, [0x15], rest))
  {
    OneBefore(num, st.expected);
    hide Before;
  }

  lemma OneBefore(n: Octet, e: Octet)
    ensures n + 1 == e <==> n == Before(e)
    ensures n + 1 != n
  {}

  // ---------------------------------------------------------------- numbers

  lemma NumberNext(k: nat)
    ensures Number(k + 1) == Next(Number(k)) && Before(Number(k + 1)) == Number(k) && Number(k + 1) != Number(k)
  {
    NextBefore(Number(k));
    hide Next, Before;
  }

  lemma NextBefore(n: Octet)
    ensures Before(Next(n)) == n && Next(n) != n
  {}

  // ---------------------------------------------------------------- rounds

  /** What the link does to a message: passes it, hurts data or check bytes, or swallows it. */
  datatype Forward = Intact | Hurt(data: seq<Octet>, check: seq<Octet>) | Swallowed

  /** What the link does to an answer: passes it, turns it into something else, or drops it. */
  datatype Back = Passed | Garbled(b: Octet) | Dropped

  /** `idle` is how many times the receiver's read times out before the message comes. */
  datatype Fate = Fate(idle: nat, forward: Forward, back: Back)

  datatype Receiver = Running(st: Recv) | Stopped(outcome: Outcome)

  datatype Link = Link(sender: Sender, receiver: Receiver)

  /** `Send` and `Receive` as they are called, the first start character written. */
  const OPENING: Link := Link(Waiting(0), Running(FRESH))

  function Timeouts(n: nat): seq<Event> { seq(n, _ => Timeout) }

  /** The receiver after n timeouts, none of which makes it give up. */
  function Idled(st: Recv, n: nat): Recv {
    st.(errCount := st.errCount + n, crc := st.crc && (n == 0 || st.errCount + n < 4))
  }

  /** What comes to the receiver of the sender's message; a sender that waits sends none. */
  function Reaches(s: Sender, data: seq<Octet>, f: Forward): seq<Event>
    requires Sound(s, data)
  {
    match f
    case Intact => Arriving(Message(s, data))
    case Hurt(d, check) => if s.Sending? then Arriving(Frame(Number(s.k), d, check)) else Arriving(Message(s, data))
    case Swallowed => []
  }

  /** What the sender reads when the receiver has written `wrote`. */
  function Answered(wrote: seq<Octet>, b: Back): Event {
    match b
    case Passed => if wrote == [] then Timeout else Byte(wrote[0])
    case Garbled(x) => Byte(x)
    case Dropped => Timeout
  }

  /** What becomes of the receiver in a round, and what it writes last: its answer to the message, or,
      if none comes, the start character it is repeating. */
  function Hears(st: Recv, idle: nat, coming: seq<Event>): (Receiver, seq<Octet>) {
    if st.errCount + idle > START_RETRIES then (Stopped(Failed(ErrTimeout)), [CAN, CAN])
    else if coming == [] then (Running(Idled(st, idle)), StartByte(Idled(st, idle)))
    else
      var p := RecvPass(Idled(st, idle), coming);
      (if p.over.Some? then Stopped(p.over.value) else Running(p.state), Answer(p))
  }

  function HearsFrom(l: Link, data: seq<Octet>, f: Fate): (Receiver, seq<Octet>)
    requires Sound(l.sender, data)
  {
    match l.receiver
    case Stopped(_) => (l.receiver, [])
    case Running(st) => Hears(st, f.idle, Reaches(l.sender, data, f.forward))
  }

  /** What the sender reads in a round. */
  function SenderRead(l: Link, data: seq<Octet>, f: Fate): Event
    requires Sound(l.sender, data)
  {
    Answered(HearsFrom(l, data, f).1, f.back)
  }

  function Round(l: Link, data: seq<Octet>, f: Fate): Link
    requires Sound(l.sender, data)
  {
    Link(SendTurn(l.sender, data, SenderRead(l, data, f)).0, HearsFrom(l, data, f).0)
  }

  /** The damage considered: whole frames with intact headers whose check tells the damage, answers
      never turned into an ACK nor, before the first block, into the other start character, and no
      idle time that makes the receiver give up or, once the transfer has started, change its mode. */
  ghost predicate Allowed(l: Link, f: Fate) {
    && (f.forward.Hurt? && l.sender.Sending? ==>
          && |f.forward.data| == BLOCK && |f.forward.check| == CheckLength(l.sender.crc)
          && !Fits(f.forward.data, f.forward.check, l.sender.crc))
    && (f.back.Garbled? ==> f.back.b != ACK && (l.sender.Waiting? ==> f.back.b != CRC_CHAR && f.back.b != NAK))
    && (l.receiver.Running? ==> IdleAllowed(l.receiver.st, f.idle, l.sender.Waiting?))
  }

  predicate IdleAllowed(st: Recv, idle: nat, waiting: bool) {
    st.errCount + idle <= START_RETRIES && (waiting || Idled(st, idle).crc == st.crc)
  }

  // ---------------------------------------------------------------- lockstep

  /** The receiver has taken the first j blocks and is waiting for the next. */
  ghost predicate HasTaken(st: Recv, data: seq<Octet>, j: nat) {
    j <= Count(data) && st.out == Padded(data)[..BLOCK * j] && st.expected == Number(j)
  }

  ghost predicate Lockstep(l: Link, data: seq<Octet>) {
    && Sound(l.sender, data)
    && match l.sender
       case Waiting(_) => l.receiver.Running? && l.receiver.st.starting && HasTaken(l.receiver.st, data, 0)
       case Sending(k, _, crc) =>
         l.receiver.Running? && l.receiver.st.crc == crc
         && (HasTaken(l.receiver.st, data, k) || HasTaken(l.receiver.st, data, k + 1))
       case Ending(_) => (l.receiver.Running? && HasTaken(l.receiver.st, data, Count(data)))
           || Delivered(l.receiver, data)
       case Finished(err) =>
         Delivered(l.receiver, data)
         || (err.Some? && l.receiver.Running? && exists j :: HasTaken(l.receiver.st, data, j))
  }

  ghost predicate Delivered(r: Receiver, data: seq<Octet>) { r == Stopped(Got(Trimmed(Padded(data)))) }

  lemma OpeningLockstep(data: seq<Octet>)
    ensures Lockstep(OPENING, data)
  {}

  lemma NextBlock(data: seq<Octet>, k: nat)
    requires k < Count(data)
    ensures Padded(data)[..BLOCK * k] + BlockOf(data, k) == Padded(data)[..BLOCK * (k + 1)]
  {}

  /** What the receiver does with the sender's block k, intact or hurt: it keeps in step, and it
      acknowledges exactly when it then has the block. */
  lemma BlockPass(st: Recv, data: seq<Octet>, k: nat, d: seq<Octet>, check: seq<Octet>)
    requires k < Count(data) && (HasTaken(st, data, k) || HasTaken(st, data, k + 1))
    requires |Padded(data)| <= MAX_RECEIVE
    requires |d| == BLOCK && |check| == CheckLength(st.crc)
    requires Fits(d, check, st.crc) ==> d == BlockOf(data, k)
    ensures var p := RecvPass(st, Arriving(Frame(Number(k), d, check)));
            && p.over == None && p.state.crc == st.crc && |Answer(p)| == 1
            && (HasTaken(p.state, data, k) || HasTaken(p.state, data, k + 1))
            && (Answer(p)[0] == ACK ==> HasTaken(p.state, data, k + 1))
            && (Fits(d, check, st.crc) ==> Answer(p) == [ACK])
  {
    hide Fits, RecvPass, HasTaken, Accept;
    FrameAlone(st, Number(k), d, check);
    var st' := st.(starting := false);
    SameTaken(st, st', data, k);
    if !Fits(d, check, st.crc) {
      RefusedPass(st');
    } else if HasTaken(st', data, k) {
      PaddedPrefix(data, k + 1);
      TakenPass(st', data, k);
    } else {
      RepeatedPass(st', data, k);
    }
    var p := RecvPass(st, Arriving(Frame(Number(k), d, check)));
    if p.state == st' { SameTaken(st, p.state, data, k); }
  }

  lemma RefusedPass(st: Recv)
    requires !st.starting
    ensures var p := Accept(st, None, []); p == Pass(st, None, [NAK], []) && Answer(p) == [NAK] && NAK != ACK
  {}

  /** The block the receiver is waiting for. */
  lemma TakenPass(st: Recv, data: seq<Octet>, k: nat)
    requires !st.starting && k < Count(data) && HasTaken(st, data, k) && BLOCK * (k + 1) <= MAX_RECEIVE
    ensures var p := Accept(st, Some(Block(BlockOf(data, k), Number(k))), []);
            p.over == None && p.state.crc == st.crc && Answer(p) == [ACK] && HasTaken(p.state, data, k + 1)
  {
    hide Padded, BlockOf, Next, Before;
    NextBlock(data, k);
    PaddedPrefix(data, k + 1);
  }

  /** The block before: acknowledged again. */
  lemma RepeatedPass(st: Recv, data: seq<Octet>, k: nat)
    requires !st.starting && HasTaken(st, data, k + 1)
    ensures forall d :: var p := Accept(st, Some(Block(d, Number(k))), []);
            p == Pass(st, None, [ACK], []) && Answer(p) == [ACK]
  {
    NumberNext(k);
    hide Padded, Next, Before;
  }

  lemma PaddedPrefix(data: seq<Octet>, j: nat)
    requires j <= Count(data)
    ensures |Padded(data)[..BLOCK * j]| == BLOCK * j <= |Padded(data)|
  {}

  lemma EndPass(st: Recv)
    ensures var p := RecvPass(st, Arriving([EOT]));
            p == Pass(st, Some(Got(Trimmed(st.out))), [ACK], []) && Answer(p) == [ACK]
  {
    hide ReadBlock, Accept;
    assert Tail(Arriving([EOT])) == [];
  }

  lemma SameTaken(st: Recv, st': Recv, data: seq<Octet>, k: nat)
    requires st'.out == st.out && st'.expected == st.expected
    ensures HasTaken(st', data, k) <==> HasTaken(st, data, k)
    ensures HasTaken(st', data, k + 1) <==> HasTaken(st, data, k + 1)
  {}

  /** Idle time changes nothing but the count and, possibly, the mode. */
  lemma IdleTaken(st: Recv, idle: nat, data: seq<Octet>, k: nat)
    ensures HasTaken(Idled(st, idle), data, k) <==> HasTaken(st, data, k)
    ensures HasTaken(Idled(st, idle), data, k + 1) <==> HasTaken(st, data, k + 1)
  {
    SameTaken(st, Idled(st, idle), data, k);
  }

  lemma NotAcks(st: Recv)
    ensures StartByte(st) != [] ==> StartByte(st)[0] != ACK
  {}

  /** While the sender waits: whichever start character comes through, both ends use the same check. */
  lemma WaitingStep(l: Link, data: seq<Octet>, f: Fate)
    requires Lockstep(l, data) && l.sender.Waiting? && Allowed(l, f)
    ensures Lockstep(Round(l, data, f), data)
  {
    var st := l.receiver.st;
    IdleTaken(st, f.idle, data, 0);
    hide HasTaken, RecvPass;
    assert Reaches(l.sender, data, f.forward) == [];
    StartAnswered(l.sender.tries, data, Idled(st, f.idle), SenderRead(l, data, f));
  }

  lemma StartAnswered(tries: nat, data: seq<Octet>, st: Recv, e: Event)
    requires st.starting && HasTaken(st, data, 0)
    requires e in {Byte(CRC_CHAR), Byte(NAK)} ==> e == Byte(StartByte(st)[0])
    ensures Lockstep(Link(SendTurn(Waiting(tries), data, e).0, Running(st)), data)
  {
    hide HasTaken, Count;
    CountNothing(data, st);
  }

  lemma CountNothing(data: seq<Octet>, st: Recv)
    requires HasTaken(st, data, 0)
    ensures Count(data) == 0 ==> HasTaken(st, data, Count(data))
    ensures exists j :: HasTaken(st, data, j)
  {}

  /** Whatever the link does to a block, the receiver keeps in step, and answers ACK only when it has it. */
  lemma BlockHeard(st: Recv, data: seq<Octet>, k: nat, s: Sender, f: Fate)
    requires s.Sending? && s.k == k < Count(data) && s.crc == st.crc && |Padded(data)| <= MAX_RECEIVE
    requires HasTaken(st, data, k) || HasTaken(st, data, k + 1)
    requires f.forward.Hurt? ==> |f.forward.data| == BLOCK && |f.forward.check| == CheckLength(st.crc)
    requires f.forward.Hurt? ==> !Fits(f.forward.data, f.forward.check, st.crc)
    requires IdleAllowed(st, f.idle, false)
    ensures var (r, wrote) := Hears(st, f.idle, Reaches(s, data, f.forward));
            && r.Running? && r.st.crc == st.crc
            && (HasTaken(r.st, data, k) || HasTaken(r.st, data, k + 1))
            && (wrote != [] && wrote[0] == ACK ==> HasTaken(r.st, data, k + 1))
  {
    hide Fits, RecvPass, HasTaken, Padded, BlockOf, CheckBytes;
    IdleTaken(st, f.idle, data, k);
    var st1 := Idled(st, f.idle);
    match f.forward {
      case Intact =>
        var own := BlockOf(data, k);
        OwnCheckFits(own, st.crc);
        BlockPass(st1, data, k, own, CheckBytes(own, st.crc));
      case Hurt(d, check) => BlockPass(st1, data, k, d, check);
      case Swallowed => NotAcks(st1);
    }
  }

  lemma AnsweredAck(wrote: seq<Octet>, b: Back)
    requires b.Garbled? ==> b.b != ACK
    ensures Answered(wrote, b) == Byte(ACK) ==> wrote != [] && wrote[0] == ACK
  {}

  lemma SendingStep(l: Link, data: seq<Octet>, f: Fate)
    requires Lockstep(l, data) && l.sender.Sending? && Allowed(l, f) && |Padded(data)| <= MAX_RECEIVE
    ensures Lockstep(Round(l, data, f), data)
  {
    var st, k := l.receiver.st, l.sender.k;
    BlockHeard(st, data, k, l.sender, f);
    var (r, wrote) := HearsFrom(l, data, f);
    AnsweredAck(wrote, f.back);
    hide Reaches, Hears, HasTaken, SendTurn, Fits, Padded, Answered;
    AckTaken(data, k, r.st, Answered(wrote, f.back), l.sender.tries);
  }

  /** The sender moves on only for an ACK, and then the receiver has the block. */
  lemma AckTaken(data: seq<Octet>, k: nat, st: Recv, e: Event, tries: nat)
    requires k < Count(data)
    requires HasTaken(st, data, k) || HasTaken(st, data, k + 1)
    requires e == Byte(ACK) ==> HasTaken(st, data, k + 1)
    ensures Lockstep(Link(SendTurn(Sending(k, tries, st.crc), data, e).0, Running(st)), data)
  {
    hide HasTaken;
  }

  /** What an EOT does to a receiver that has everything. */
  lemma EndHeard(st: Recv, data: seq<Octet>, s: Sender, f: Fate)
    requires s.Ending? && HasTaken(st, data, Count(data)) && IdleAllowed(st, f.idle, false)
    ensures var (r, wrote) := Hears(st, f.idle, Reaches(s, data, f.forward));
            if f.forward.Swallowed? then
              r.Running? && HasTaken(r.st, data, Count(data)) && (wrote != [] ==> wrote[0] != ACK)
            else Delivered(r, data) && wrote == [ACK]
  {
    hide RecvPass, HasTaken, Trimmed;
    IdleTaken(st, f.idle, data, Count(data));
    EndPass(Idled(st, f.idle));
    AllTaken(st, data);
    NotAcks(Idled(st, f.idle));
  }

  lemma AllTaken(st: Recv, data: seq<Octet>)
    requires HasTaken(st, data, Count(data))
    ensures st.out == Padded(data)
  {
    assert Padded(data)[..BLOCK * Count(data)] == Padded(data);
  }

  lemma EndingStep(l: Link, data: seq<Octet>, f: Fate)
    requires Lockstep(l, data) && l.sender.Ending? && Allowed(l, f)
    ensures Lockstep(Round(l, data, f), data)
  {
    if l.receiver.Running? {
      EndHeard(l.receiver.st, data, l.sender, f);
      AnsweredAck(HearsFrom(l, data, f).1, f.back);
    }
    hide Hears, Reaches, HasTaken, Padded, Trimmed;
  }

  lemma StepLockstep(l: Link, data: seq<Octet>, f: Fate)
    requires Lockstep(l, data) && Allowed(l, f) && |Padded(data)| <= MAX_RECEIVE && !l.sender.Finished?
    ensures Lockstep(Round(l, data, f), data)
  {
    hide Round, Allowed, HasTaken;
    match l.sender {
      case Waiting(_) => WaitingStep(l, data, f);
      case Sending(_, _, _) => SendingStep(l, data, f);
      case Ending(_) => EndingStep(l, data, f);
    }
  }

  // ---------------------------------------------------------------- whole runs

  /** The link after the rounds of `fates`; once the sender has finished there are no more rounds. */
  function Rounds(l: Link, data: seq<Octet>, fates: seq<Fate>): Link
    requires Sound(l.sender, data)
    decreases |fates|
  {
    if fates == [] || l.sender.Finished? then l
    else
      RoundSound(l, data, fates[0]);
      Rounds(Round(l, data, fates[0]), data, fates[1..])
  }

  lemma RoundSound(l: Link, data: seq<Octet>, f: Fate)
    requires Sound(l.sender, data)
    ensures Sound(Round(l, data, f).sender, data)
  {
    hide HearsFrom;
  }

  ghost predicate AllAllowed(l: Link, data: seq<Octet>, fates: seq<Fate>)
    requires Sound(l.sender, data)
    decreases |fates|
  {
    fates == [] || l.sender.Finished?
    || (RoundSound(l, data, fates[0]); Allowed(l, fates[0]) && AllAllowed(Round(l, data, fates[0]), data, fates[1..]))
  }

  /** Over every schedule of allowed damage, for data of at most 1 MiB once padded: the receiver's
      output is always the first s-1 or s blocks, s being the sender's block number. */
  lemma {:induction false} AlwaysLockstep(l: Link, data: seq<Octet>, fates: seq<Fate>)
    requires Lockstep(l, data) && AllAllowed(l, data, fates) && |Padded(data)| <= MAX_RECEIVE
    ensures Lockstep(Rounds(l, data, fates), data)
    decreases |fates|
  {
    hide Lockstep, Allowed, Round;
    LockstepSound(l, data);
    if fates != [] && !l.sender.Finished? {
      StepLockstep(l, data, fates[0]);
      RoundSound(l, data, fates[0]);
      AlwaysLockstep(Round(l, data, fates[0]), data, fates[1..]);
    }
  }

  lemma LockstepSound(l: Link, data: seq<Octet>)
    requires Lockstep(l, data)
    ensures Sound(l.sender, data)
  {}

  // ---------------------------------------------------------------- what a transfer delivers

  lemma {:induction false} TrimmedSubs(data: seq<Octet>, n: nat)
    ensures Trimmed(data + Subs(n)) == Trimmed(data)
  {
    if n == 0 {
      assert data + Subs(0) == data;
    } else {
      var p := data + Subs(n);
      assert p[..|p| - 1] == data + Subs(n - 1);
      TrimmedSubs(data, n - 1);
    }
  }

  /** Padding and trimming lose the trailing 0x1A bytes of the data, and nothing else. */
  lemma TrimmedPadded(data: seq<Octet>)
    ensures Trimmed(Padded(data)) == Trimmed(data)
  {
    TrimmedSubs(data, BLOCK * Count(data) - |data|);
  }

  lemma {:induction false} TrimmedIsPrefix(data: seq<Octet>)
    ensures Trimmed(data) <= data
    ensures Trimmed(data) == data <==> data == [] || data[|data| - 1] != SUB
    ensures data == Trimmed(data) + Subs(|data| - |Trimmed(data)|)
  {
    if data != [] && data[|data| - 1] == SUB {
      TrimmedIsPrefix(data[..|data| - 1]);
      assert data == data[..|data| - 1] + [SUB];
    }
  }

  /** Over every schedule of allowed damage, from the calls of `Send` and `Receive` on: a sender that
      returns without error has delivered the data, and a receiver that returns has received it,
      trailing 0x1A bytes apart. */
  lemma TransferExact(data: seq<Octet>, fates: seq<Fate>)
    requires AllAllowed(OPENING, data, fates) && |Padded(data)| <= MAX_RECEIVE
    ensures var e := Rounds(OPENING, data, fates);
            && (e.sender == Finished(None) ==> e.receiver == Stopped(Got(Trimmed(data))))
            && (e.receiver.Stopped? ==> e.receiver.outcome == Got(Trimmed(data)))
            && (e.receiver.Running? ==> exists j :: HasTaken(e.receiver.st, data, j))
  {
    OpeningLockstep(data);
    AlwaysLockstep(OPENING, data, fates);
    TrimmedPadded(data);
    hide Padded, Trimmed, AllAllowed, Rounds, HasTaken;
  }

  // ---------------------------------------------------------------- the last acknowledgement

  /** The receiver leaves in one of the rounds, and its answer of that round comes through. */
  ghost predicate LastAckPassed(l: Link, data: seq<Octet>, fates: seq<Fate>)
    requires Sound(l.sender, data)
    decreases |fates|
  {
    && fates != [] && !l.sender.Finished?
    && (RoundSound(l, data, fates[0]);
        var l' := Round(l, data, fates[0]);
        if l.receiver.Running? && l'.receiver.Stopped? then fates[0].back == Passed
        else LastAckPassed(l', data, fates[1..]))
  }

  /** Once the receiver has left, the sender never returns without error. */
  lemma {:induction false} NeverMadeUpFor(l: Link, data: seq<Octet>, fates: seq<Fate>)
    requires l.sender.Ending? && l.receiver.Stopped? && AllAllowed(l, data, fates)
    ensures Rounds(l, data, fates).sender != Finished(None)
    decreases |fates|
  {
    if fates != [] {
      var l' := Round(l, data, fates[0]);
      RoundSound(l, data, fates[0]);
      if l'.sender.Ending? { NeverMadeUpFor(l', data, fates[1..]); }
    }
  }

  /** What the round in which the receiver leaves makes of the sender. */
  lemma LeavingRound(l: Link, data: seq<Octet>, f: Fate)
    requires Lockstep(l, data) && Allowed(l, f) && !l.sender.Finished? && |Padded(data)| <= MAX_RECEIVE
    requires l.receiver.Running? && Round(l, data, f).receiver.Stopped?
    ensures l.sender.Ending?
    ensures if f.back == Passed then Round(l, data, f).sender == Finished(None)
            else Round(l, data, f).sender != Finished(None)
  {
    hide Hears, Reaches, HasTaken, Padded, Trimmed;
    match l.sender {
      case Waiting(_) => StillWaiting(l, data, f);
      case Sending(_, _, _) => BlockHeard(l.receiver.st, data, l.sender.k, l.sender, f);
      case Ending(_) => EndHeard(l.receiver.st, data, l.sender, f);
    }
  }

  lemma StillWaiting(l: Link, data: seq<Octet>, f: Fate)
    requires l.sender.Waiting? && l.receiver.Running? && Allowed(l, f)
    ensures Round(l, data, f).receiver.Running?
  {
    hide RecvPass;
    assert Reaches(l.sender, data, f.forward) == [];
  }

  /** Over every schedule of allowed damage, the sender returns without error if and only if the
      acknowledgement of its EOT comes through: the receiver sends it once, and leaves. */
  lemma {:induction false} LastAckDecides(l: Link, data: seq<Octet>, fates: seq<Fate>)
    requires Lockstep(l, data) && AllAllowed(l, data, fates) && |Padded(data)| <= MAX_RECEIVE && l.receiver.Running?
    requires !l.sender.Finished?
    ensures Rounds(l, data, fates).sender == Finished(None) <==> LastAckPassed(l, data, fates)
    decreases |fates|
  {
    if fates != [] {
      var f, l' := fates[0], Round(l, data, fates[0]);
      RoundSound(l, data, f);
      StepLockstep(l, data, f);
      if l'.receiver.Stopped? { LeavingRound(l, data, f); }
      LockstepEnds(l', data);
      hide Lockstep, Allowed, Round;
      if l'.receiver.Stopped? {
        if l'.sender.Ending? { NeverMadeUpFor(l', data, fates[1..]); }
      } else if !l'.sender.Finished? {
        LastAckDecides(l', data, fates[1..]);
      }
    }
  }

  lemma LockstepEnds(l: Link, data: seq<Octet>)
    requires Lockstep(l, data)
    ensures l.receiver.Stopped? ==> l.sender.Ending? || l.sender.Finished?
    ensures l.receiver.Running? ==> l.sender != Finished(None)
  {}

  const CLEAN: Fate := Fate(0, Intact, Passed)
  const UNANSWERED: Fate := Fate(0, Intact, Dropped)

  function Repeated(f: Fate, n: nat): seq<Fate> { seq(n, _ => f) }

  /** A run that loses it: the start character passes, and no answer after it.  The empty file has
      been received, and the sender reports a failure. */
  lemma LastAckLost()
    ensures var fates := [CLEAN] + Repeated(UNANSWERED, MAX_RETRIES);
            AllAllowed(OPENING, [], fates)
            && Rounds(OPENING, [], fates) == Link(Finished(Some(ErrTooManyNAK)), Stopped(Got([])))
  {
    var fates := [CLEAN] + Repeated(UNANSWERED, MAX_RETRIES);
    var rest := Repeated(UNANSWERED, MAX_RETRIES);
    assert fates[1..] == rest && rest[1..] == Repeated(UNANSWERED, MAX_RETRIES - 1);
    var l1 := Link(Ending(0), Running(FRESH));
    EndPass(FRESH);
    assert Idled(FRESH, 0) == FRESH;
    hide RecvPass;
    assert Round(OPENING, [], CLEAN) == l1;
    assert Round(l1, [], UNANSWERED) == Link(Ending(1), Stopped(Got([])));
    hide Round;
    Unanswered(1);
  }

  lemma {:induction false} Unanswered(tries: nat)
    requires tries < MAX_RETRIES
    ensures var l, fates := Link(Ending(tries), Stopped(Got([]))), Repeated(UNANSWERED, MAX_RETRIES - tries);
            AllAllowed(l, [], fates) && Rounds(l, [], fates) == Link(Finished(Some(ErrTooManyNAK)), Stopped(Got([])))
    decreases MAX_RETRIES - tries
  {
    var l, fates := Link(Ending(tries), Stopped(Got([]))), Repeated(UNANSWERED, MAX_RETRIES - tries);
    assert fates[1..] == Repeated(UNANSWERED, MAX_RETRIES - tries - 1);
    if tries + 1 < MAX_RETRIES { Unanswered(tries + 1); }
  }

  /** Data of a block and its own check bytes, hurt in two adjacent data bytes: allowed damage in CRC
      mode; and in sum mode, hurt in a single byte. */
  lemma PairHurtTold(own: seq<Octet>, hurt: seq<Octet>, i: nat)
    requires |own| == BLOCK && DamagedPair(own, hurt, i) && own != hurt
    ensures !Fits(hurt, CheckBytes(own, true), true)
  {
    PairDetected(own, hurt, i);
    JoinedBack(Crc16(own));
    hide Crc16, Joined, HighByte, LowByte;
  }

  lemma ByteHurtTold(own: seq<Octet>, hurt: seq<Octet>, i: nat)
    requires |own| == BLOCK == |hurt| && i < BLOCK && own != hurt
    requires forall k :: 0 <= k < BLOCK && k != i ==> own[k] == hurt[k]
    ensures !Fits(hurt, CheckBytes(own, false), false)
  {
    ByteDetected(own, hurt, i);
  }

  // ---------------------------------------------------------------- back to the two programs

  /** What the sender reads in the rounds of `fates`: the input of its connection. */
  function SenderReads(l: Link, data: seq<Octet>, fates: seq<Fate>): seq<Event>
    requires Sound(l.sender, data)
    decreases |fates|
  {
    if fates == [] || l.sender.Finished? then []
    else
      RoundSound(l, data, fates[0]);
      [SenderRead(l, data, fates[0])] + SenderReads(Round(l, data, fates[0]), data, fates[1..])
  }

  /** What it writes in them: one message a round, and what giving up adds. */
  function SenderWrites(l: Link, data: seq<Octet>, fates: seq<Fate>): seq<Octet>
    requires Sound(l.sender, data)
    decreases |fates|
  {
    if fates == [] || l.sender.Finished? then []
    else
      RoundSound(l, data, fates[0]);
      Message(l.sender, data) + SendTurn(l.sender, data, SenderRead(l, data, fates[0])).1
      + SenderWrites(Round(l, data, fates[0]), data, fates[1..])
  }

  /** What the receiver reads in them, until it returns: timeouts, and what the link makes of each message. */
  function ReceiverReads(l: Link, data: seq<Octet>, fates: seq<Fate>): seq<Event>
    requires Sound(l.sender, data)
    decreases |fates|
  {
    if fates == [] || l.sender.Finished? || l.receiver.Stopped? then []
    else
      RoundSound(l, data, fates[0]);
      Timeouts(fates[0].idle) + Reaches(l.sender, data, fates[0].forward)
      + ReceiverReads(Round(l, data, fates[0]), data, fates[1..])
  }

  /** The run of `Send` on what it reads ends as the rounds end for it, and has written what the rounds
      say. */
  lemma {:induction false} SenderRuns(l: Link, data: seq<Octet>, fates: seq<Fate>)
    requires Sound(l.sender, data) && Rounds(l, data, fates).sender.Finished?
    ensures SendRun(l.sender, data, SenderReads(l, data, fates)) ==
            SendResult(Rounds(l, data, fates).sender.err, SenderWrites(l, data, fates), [])
    decreases |fates|
  {
    hide SendTurn, HearsFrom, Answered, Message;
    if fates != [] && !l.sender.Finished? {
      RoundSound(l, data, fates[0]);
      var l' := Round(l, data, fates[0]);
      SenderRuns(l', data, fates[1..]);
      hide SendRun;
      RunStep(l.sender, data, SenderRead(l, data, fates[0]), SenderReads(l', data, fates[1..]));
    }
  }

  /** A pass takes what one message of the sender brings, and no more. */
  lemma ReachesOnce(st: Recv, s: Sender, data: seq<Octet>, f: Forward, rest: seq<Event>)
    requires Sound(s, data) && (s.Sending? ==> s.crc == st.crc) && Reaches(s, data, f) != []
    requires f.Hurt? && s.Sending? ==> |f.data| == BLOCK && |f.check| == CheckLength(s.crc)
    ensures RecvPass(st, Reaches(s, data, f) + rest) == RecvPass(st, Reaches(s, data, f)).(rest := rest)
    ensures RecvPass(st, Reaches(s, data, f)).rest == []
  {
    hide BlockOf, CheckBytes, Fits, Accept, ReadBlock;
    if s.Ending? {
      assert Arriving([EOT]) == [Byte(EOT)];
      assert Tail([Byte(EOT)] + rest) == rest && Tail([Byte(EOT)]) == [];
    } else {
      var d := if f.Hurt? then f.data else BlockOf(data, s.k);
      var check := if f.Hurt? then f.check else CheckBytes(d, s.crc);
      var block := if Fits(d, check, st.crc) then Some(Block(d, Number(s.k))) else None;
      FramePass(st, Number(s.k), d, check, rest);
      FrameAlone(st, Number(s.k), d, check);
      AcceptRest(st.(starting := false), block, rest);
      AcceptRest(st.(starting := false), block, []);
    }
  }

  /** A timeout takes one pass. */
  lemma TimeoutPass(st: Recv, rest: seq<Event>)
    requires st.errCount < START_RETRIES
    ensures RecvPass(st, [Timeout] + rest) == Pass(Idled(st, 1), None, [], rest)
  {
    assert Tail([Timeout] + rest) == rest;
  }

  /** Idle time, as the receiver's loop goes through it. */
  lemma {:induction false} IdleRuns(st: Recv, n: nat, rest: seq<Event>)
    requires st.errCount + n <= START_RETRIES
    ensures RecvRun(st, Timeouts(n) + rest).outcome == RecvRun(Idled(st, n), rest).outcome
    decreases n
  {
    if n == 0 {
      assert Timeouts(0) + rest == rest && Idled(st, 0) == st;
    } else {
      TimeoutPass(st, Timeouts(n - 1) + rest);
      hide RecvPass;
      assert Timeouts(n) + rest == [Timeout] + (Timeouts(n - 1) + rest);
      IdleRuns(Idled(st, 1), n - 1, rest);
      assert Idled(Idled(st, 1), n - 1) == Idled(st, n);
    }
  }

  /** The run of `Receive` on what it reads ends as the rounds end for it. */
  lemma {:induction false} ReceiverRuns(l: Link, data: seq<Octet>, fates: seq<Fate>)
    requires Lockstep(l, data) && AllAllowed(l, data, fates) && |Padded(data)| <= MAX_RECEIVE
    requires l.receiver.Running? && Rounds(l, data, fates).receiver.Stopped?
    ensures RecvRun(l.receiver.st, ReceiverReads(l, data, fates)).outcome == Rounds(l, data, fates).receiver.outcome
    decreases |fates|
  {
    var f, st := fates[0], l.receiver.st;
    var l' := Round(l, data, f);
    StepLockstep(l, data, f);
    RoundSound(l, data, f);
    var coming, later := Reaches(l.sender, data, f.forward), ReceiverReads(l', data, fates[1..]);
    assert Timeouts(f.idle) + coming + later == Timeouts(f.idle) + (coming + later);
    IdleRuns(st, f.idle, coming + later);
    if l'.receiver.Stopped? { StoppedStays(l', data, fates[1..]); } else { ReceiverRuns(l', data, fates[1..]); }
    if coming == [] {
      assert coming + later == later;
    } else {
      ReachesOnce(Idled(st, f.idle), l.sender, data, f.forward, later);
      hide RecvPass, Reaches, SendTurn, Answered;
    }
  }

  lemma {:induction false} StoppedStays(l: Link, data: seq<Octet>, fates: seq<Fate>)
    requires Sound(l.sender, data) && l.receiver.Stopped?
    ensures Rounds(l, data, fates).receiver == l.receiver
    decreases |fates|
  {
    hide SendTurn;
    if fates != [] && !l.sender.Finished? {
      RoundSound(l, data, fates[0]);
      StoppedStays(Round(l, data, fates[0]), data, fates[1..]);
    }
  }

  /** A sender that has given up leaves two CANs or nothing, and a receiver still at it then fails. */
  lemma NothingMore(st: Recv, idle: nat)
    requires st.errCount + idle <= START_RETRIES
    ensures RecvRun(st, Timeouts(idle) + Arriving([CAN, CAN])).outcome == Failed(ErrCanceled)
    ensures RecvRun(st, Timeouts(idle)).outcome == Failed(ErrIO)
  {
    IdleRuns(st, idle, Arriving([CAN, CAN]));
    IdleRuns(st, idle, []);
    assert Timeouts(idle) + [] == Timeouts(idle);
  }

  /** End to end, in terms of the two programs as they are called: over every schedule of allowed
      damage, if `Send` returns without error then `Receive` has returned the data, trailing 0x1A bytes
      apart; whenever `Receive` returns it has returned that; and `Send` returns without error if and
      only if the last acknowledgement came through. */
  lemma EndToEnd(data: seq<Octet>, fates: seq<Fate>)
    requires AllAllowed(OPENING, data, fates) && |Padded(data)| <= MAX_RECEIVE
    ensures var e := Rounds(OPENING, data, fates);
            && (e.sender.Finished? ==>
                  var s := SendRun(Waiting(0), data, SenderReads(OPENING, data, fates));
                  && (s.err == None <==> LastAckPassed(OPENING, data, fates))
                  && s.wrote == SenderWrites(OPENING, data, fates)
                  && (s.err == None ==> e.receiver.Stopped?))
            && (e.receiver.Stopped? ==>
                  RecvRun(FRESH, ReceiverReads(OPENING, data, fates)).outcome == Got(Trimmed(data)))
  {
    OpeningLockstep(data);
    TransferExact(data, fates);
    LastAckDecides(OPENING, data, fates);
    var e := Rounds(OPENING, data, fates);
    if e.sender.Finished? { SenderRuns(OPENING, data, fates); }
    hide Padded, Trimmed, AllAllowed, Lockstep, LastAckPassed, SendRun, RecvRun, Rounds, SenderReads, SenderWrites,
        ReceiverReads;
    if e.receiver.Stopped? { ReceiverRuns(OPENING, data, fates); }
  }
}
