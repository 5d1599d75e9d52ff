/** `Send` and `Receive` themselves (internal/xmodem/xmodem.go): loops over a connection that is read
    and written in place.  A connection is what is still to come from it and what has been written
    to it; each loop is proved to do what the turns of Xmodem add up to, whatever comes. */
module XmodemIo {
  import opened Options
  import opened Octets
  import opened Crc
  import opened Xmodem

  class Conn {
    var input: seq<Event>
    var sent: seq<Octet>

    constructor (input: seq<Event>)
      ensures this.input == input && sent == []
    {
      this.input := input;
      sent := [];
    }

    method Write(bytes: seq<Octet>)
      modifies this`sent
      ensures sent == old(sent) + bytes
    {
      sent := sent + bytes;
    }

    /** `readByte`: a connection with nothing more to come is a broken one. */
    method ReadByte() returns (e: Event)
      modifies this`input
      ensures e == Head(old(input)) && input == Tail(old(input))
    {
      if input == [] { return Broken; }
      e := input[0];
      input := input[1..];
    }

    /** `readFull` */
    method ReadBytes(n: nat) returns (bytes: Option<seq<Octet>>)
      modifies this`input
      ensures bytes == ReadFull(old(input), n).0 && input == ReadFull(old(input), n).1
    {
      var got := [];
      ghost var goal := ReadFull(input, n);
      for i := 0 to n
        invariant |got| == i
        invariant goal.1 == ReadFull(input, n - i).1
        invariant goal.0.Some? <==> ReadFull(input, n - i).0.Some?
        invariant goal.0.Some? ==> goal.0.value == got + ReadFull(input, n - i).0.value
      {
        var e := ReadByte();
        if !e.Byte? { return None; }
        got := got + [e.b];
      }
      assert got + [] == got;
      bytes := Some(got);
    }
  }

  /** `readBlock` */
  method ReceiveBlock(c: Conn, crc: bool) returns (block: Option<Block>)
    modifies c`input
    ensures block == ReadBlock(old(c.input), crc).0 && c.input == ReadBlock(old(c.input), crc).1
  {
    hide ReadFull, Joined;
    var hdr := c.ReadBytes(2);
    if hdr.None? { return None; }
    if hdr.value[0] != !hdr.value[1] { return None; }
    var buf := c.ReadBytes(BLOCK);
    if buf.None? { return None; }
    if crc {
      var ck := c.ReadBytes(2);
      if ck.None? { return None; }
      var sum := ComputeCrc(buf.value);
      if sum != Joined(ck.value[0], ck.value[1]) { return None; }
    } else {
      var ck := c.ReadBytes(1);
      if ck.None? { return None; }
      var sum := ComputeChecksum(buf.value);
      if sum != ck.value[0] { return None; }
    }
    block := Some(Block(buf.value, hdr.value[0]));
  }

  /** `trimPadding` */
  method TrimPadding(data: seq<Octet>) returns (t: seq<Octet>)
    ensures t == Trimmed(data)
  {
    var i := |data|;
    assert data[..i] == data;
    while i > 0 && data[i - 1] == SUB
      invariant 0 <= i <= |data|
      invariant Trimmed(data) == Trimmed(data[..i])
    {
      assert data[..i][..i - 1] == data[..i - 1];
      i := i - 1;
    }
    t := data[..i];
  }

  /** What is left to do from state st with what is to come adds up to the goal. */
  ghost predicate ToGo(st: Recv, input: seq<Event>, sent: seq<Octet>, goal: RecvResult) {
    var r := RecvRun(st, input);
    r.outcome == goal.outcome && r.rest == goal.rest && sent + StartByte(st) + r.wrote == goal.wrote
  }

  lemma PassToGo(st: Recv, input: seq<Event>, sent: seq<Octet>, goal: RecvResult)
    requires ToGo(st, input, sent, goal)
    ensures |RecvPass(st, input).rest| <= |input|
    ensures var p := RecvPass(st, input);
            match p.over
            case Some(o) => goal.outcome == o && goal.rest == p.rest && goal.wrote == sent + StartByte(st) + p.wrote
            case None => |p.rest| < |input| && ToGo(p.state, p.rest, sent + StartByte(st) + p.wrote, goal)
  {
    hide RecvPass, StartByte;
    var p := RecvPass(st, input);
    if p.over.None? {
      var next, later := StartByte(p.state), RecvRun(p.state, p.rest).wrote;
      assert sent + StartByte(st) + (p.wrote + next + later) == (sent + StartByte(st) + p.wrote) + next + later;
    }
  }

  /** The fields of the loop of `Receive`, gathered. */
  method WriteStart(c: Conn, st: Recv)
    modifies c`sent
    ensures c.sent == old(c.sent) + StartByte(st)
  {
    if st.starting {
      var start := CRC_CHAR;
      if !st.crc { start := NAK; }
      c.Write([start]);
    }
    assert old(c.sent) + [] == old(c.sent);
  }

  /** The switch on the number of a block. */
  method TakeBlock(c: Conn, st: Recv, block: Option<Block>) returns (st': Recv, over: Option<Outcome>)
    modifies c`sent
    ensures var p := Accept(st, block, []); st' == p.state && over == p.over && c.sent == old(c.sent) + p.wrote
  {
    hide Next, Before;
    st', over := st, None;
    if block.None? {
      c.Write([NAK]);
      return;
    }
    var b := block.value;
    if b.num == st.expected {
      st' := st.(out := st.out + b.data, expected := Next(st.expected));
      if |st'.out| > MAX_RECEIVE {
        c.Write([CAN, CAN]);
        return st', Some(Failed(ErrTooLarge));
      }
      c.Write([ACK]);
    } else if b.num == Before(st.expected) {
      c.Write([ACK]);
    } else {
      c.Write([NAK]);
    }
  }

  /** One pass of the loop of `Receive`, after the start character. */
  method Turn(c: Conn, st: Recv) returns (st': Recv, over: Option<Outcome>)
    modifies c
    ensures var p := RecvPass(st, old(c.input));
            st' == p.state && over == p.over && c.input == p.rest && c.sent == old(c.sent) + p.wrote
  {
    hide ReadBlock, Accept;
    st', over := st, None;
    assert c.sent + [] == c.sent;
    var e := c.ReadByte();
    match e {
      case Broken => over := Some(Failed(ErrIO));
      case Timeout =>
        st' := st'.(errCount := st.errCount + 1);
        if st'.errCount > START_RETRIES {
          c.Write([CAN, CAN]);
          return st', Some(Failed(ErrTimeout));
        }
        if st'.crc && st'.errCount >= 4 { st' := st'.(crc := false); }
      case Byte(b) =>
        if b == EOT {
          c.Write([ACK]);
          var data := TrimPadding(st.out);
          over := Some(Got(data));
        } else if b == CAN {
          over := Some(Failed(ErrCanceled));
        } else if b == SOH {
          st' := st'.(starting := false);
          var block := ReceiveBlock(c, st.crc);
          AcceptRest(st', block, c.input);
          st', over := TakeBlock(c, st', block);
        }
    }
  }

  /** `Receive` */
  method Receive(c: Conn) returns (outcome: Outcome)
    modifies c
    ensures var r := RecvRun(FRESH, old(c.input));
            outcome == r.outcome && c.input == r.rest && c.sent == old(c.sent) + StartByte(FRESH) + r.wrote
  {
    hide RecvPass, StartByte;
    ghost var goal := RecvRun(FRESH, c.input);
    goal := goal.(wrote := c.sent + StartByte(FRESH) + goal.wrote);
    var st := FRESH;
    var over: Option<Outcome> := None;
    while over.None?
      invariant over.None? ==> ToGo(st, c.input, c.sent, goal)
      invariant over.Some? ==> over.value == goal.outcome && c.input == goal.rest && c.sent == goal.wrote
      decreases |c.input|, if over.None? then 1 else 0
    {
      PassToGo(st, c.input, c.sent, goal);
      WriteStart(c, st);
      st, over := Turn(c, st);
    }
    outcome := over.value;
  }

  // ---------------------------------------------------------------- the sender

  /** What is left to do from state s with what is to come adds up to the goal. */
  ghost predicate SendToGo(s: Sender, data: seq<Octet>, input: seq<Event>, sent: seq<Octet>, goal: SendResult) {
    && Sound(s, data)
    && var r := SendRun(s, data, input);
       r.err == goal.err && r.rest == goal.rest && sent + r.wrote == goal.wrote
  }

  lemma TurnToGo(s: Sender, data: seq<Octet>, input: seq<Event>, sent: seq<Octet>, goal: SendResult)
    requires SendToGo(s, data, input, sent, goal) && !s.Finished?
    ensures var turn := SendTurn(s, data, Head(input));
            SendToGo(turn.0, data, Tail(input), sent + Message(s, data) + turn.1, goal)
  {
    hide SendTurn, Message;
    SendTurnSound(s, data, Head(input));
    var turn := SendTurn(s, data, Head(input));
    var later := SendRun(turn.0, data, Tail(input)).wrote;
    assert sent + (Message(s, data) + turn.1 + later) == (sent + Message(s, data) + turn.1) + later;
  }

  lemma OverToGo(err: Option<Error>, data: seq<Octet>, input: seq<Event>, sent: seq<Octet>, goal: SendResult)
    requires SendToGo(Finished(err), data, input, sent, goal)
    ensures goal == SendResult(err, sent, input)
  {
    assert sent + [] == sent;
  }

  /** `waitStart` */
  method WaitStart(c: Conn, ghost data: seq<Octet>, ghost goal: SendResult) returns (crc: bool, err: Option<Error>)
    requires SendToGo(Waiting(0), data, c.input, c.sent, goal)
    modifies c`input
    ensures SendToGo(if err.None? then At(data, 0, crc) else Finished(err), data, c.input, c.sent, goal)
  {
    hide SendToGo;
    crc, err := false, None;
    for i := 0 to START_RETRIES
      invariant c.sent == old(c.sent)
      invariant i < START_RETRIES ==> SendToGo(Waiting(i), data, c.input, c.sent, goal)
      invariant i == START_RETRIES ==> SendToGo(Finished(Some(ErrTimeout)), data, c.input, c.sent, goal)
    {
      TurnToGo(Waiting(i), data, c.input, c.sent, goal);
      assert c.sent + [] + [] == c.sent;
      var e := c.ReadByte();
      if e == Broken { return false, Some(ErrIO); }
      if e == Byte(CRC_CHAR) { return true, None; }
      if e == Byte(NAK) { return false, None; }
      if e == Byte(CAN) { return false, Some(ErrCanceled); }
    }
    err := Some(ErrTimeout);
  }

  /** `sendBlock` */
  method SendBlock(c: Conn, blk: Octet, block: seq<Octet>, crc: bool, ghost data: seq<Octet>, ghost k: nat,
      ghost goal: SendResult)
    returns (err: Option<Error>)
    requires k < Count(data) && blk == Number(k) && block == BlockOf(data, k)
    requires SendToGo(Sending(k, 0, crc), data, c.input, c.sent, goal)
    modifies c
    ensures SendToGo(if err.None? then At(data, k + 1, crc) else Finished(err), data, c.input, c.sent, goal)
  {
    hide SendToGo, BlockOf, At, Message, Number;
    var frame := MakeFrame(blk, block, crc, data, k);
    for retry := 0 to MAX_RETRIES
      invariant retry < MAX_RETRIES ==> SendToGo(Sending(k, retry, crc), data, c.input, c.sent, goal)
      invariant retry == MAX_RETRIES
                ==> SendToGo(Finished(Some(ErrTooManyNAK)), data, c.input, c.sent + [CAN, CAN], goal)
    {
      assert frame == Message(Sending(k, retry, crc), data);
      SendTurns(c.input, c.sent, data, k, retry, crc, goal);
      c.Write(frame);
      var e := c.ReadByte();
      if e == Broken { return Some(ErrIO); }
      if e == Byte(ACK) { return None; }
      if e == Byte(CAN) { return Some(ErrCanceled); }
    }
    c.Write([CAN, CAN]);
    err := Some(ErrTooManyNAK);
  }

  /** The frame of block k. */
  method MakeFrame(blk: Octet, block: seq<Octet>, crc: bool, ghost data: seq<Octet>, ghost k: nat)
      returns (frame: seq<Octet>)
    requires k < Count(data) && blk == Number(k) && block == BlockOf(data, k)
    ensures forall tries :: frame == Message(Sending(k, tries, crc), data)
  {
    hide BlockOf, CheckBytes, Number;
    var check := MakeCheck(block, crc);
    frame := [SOH, blk, !blk] + block + check;
  }

  lemma SendTurns(input: seq<Event>, sent: seq<Octet>, data: seq<Octet>, k: nat, retry: nat, crc: bool,
      goal: SendResult)
    requires k < Count(data) && SendToGo(Sending(k, retry, crc), data, input, sent, goal)
    ensures var sent' := sent + Message(Sending(k, retry, crc), data); var e := Head(input); var rest := Tail(input);
            if e == Broken then SendToGo(Finished(Some(ErrIO)), data, rest, sent', goal)
            else if e == Byte(ACK) then SendToGo(At(data, k + 1, crc), data, rest, sent', goal)
            else if e == Byte(CAN) then SendToGo(Finished(Some(ErrCanceled)), data, rest, sent', goal)
            else if retry + 1 < MAX_RETRIES then SendToGo(Sending(k, retry + 1, crc), data, rest, sent', goal)
            else SendToGo(Finished(Some(ErrTooManyNAK)), data, rest, sent' + [CAN, CAN], goal)
  {
    hide SendToGo, Message, At;
    var sent' := sent + Message(Sending(k, retry, crc), data);
    assert sent' + [] == sent';
    TurnToGo(Sending(k, retry, crc), data, input, sent, goal);
  }

  method MakeCheck(block: seq<Octet>, crc: bool) returns (check: seq<Octet>)
    ensures check == CheckBytes(block, crc)
  {
    if crc {
      var ck := ComputeCrc(block);
      check := [HighByte(ck), LowByte(ck)];
    } else {
      var s := ComputeChecksum(block);
      check := [s];
    }
  }

  /** The block at an offset, filled up with SUB. */
  method MakeBlock(data: seq<Octet>, off: nat) returns (block: seq<Octet>)
    requires off < |data| && off % BLOCK == 0
    ensures off / BLOCK < Count(data) && block == BlockOf(data, off / BLOCK)
  {
    var n := if |data| - off < BLOCK then |data| - off else BLOCK;
    block := data[off..off + n];
    for i := n to BLOCK
      invariant |block| == i && block[..n] == data[off..off + n]
      invariant forall j :: n <= j < i ==> block[j] == SUB
    {
      block := block + [SUB];
    }
    var k := off / BLOCK;
    assert BLOCK * k == off;
    var own := BlockOf(data, k);
    forall i | 0 <= i < BLOCK ensures block[i] == own[i] {
      assert own[i] == Padded(data)[off + i];
      if i < n { assert block[i] == block[..n][i]; }
    }
  }

  /** The loop that ends the transmission. */
  method SendEnd(c: Conn, ghost data: seq<Octet>, ghost goal: SendResult) returns (err: Option<Error>)
    requires SendToGo(Ending(0), data, c.input, c.sent, goal)
    modifies c
    ensures SendToGo(Finished(err), data, c.input, c.sent, goal)
  {
    hide SendToGo;
    for retry := 0 to MAX_RETRIES
      invariant retry < MAX_RETRIES ==> SendToGo(Ending(retry), data, c.input, c.sent, goal)
      invariant retry == MAX_RETRIES
                ==> SendToGo(Finished(Some(ErrTooManyNAK)), data, c.input, c.sent + [CAN, CAN], goal)
    {
      TurnToGo(Ending(retry), data, c.input, c.sent, goal);
      c.Write([EOT]);
      assert c.sent + [] == c.sent;
      var e := c.ReadByte();
      if e == Broken { return Some(ErrIO); }
      if e == Byte(ACK) { return None; }
    }
    c.Write([CAN, CAN]);
    err := Some(ErrTooManyNAK);
  }

  /** `Send` */
  method Send(c: Conn, data: seq<Octet>) returns (err: Option<Error>)
    modifies c
    ensures var r := SendRun(Waiting(0), data, old(c.input));
            err == r.err && c.input == r.rest && c.sent == old(c.sent) + r.wrote
  {
    ghost var run := SendRun(Waiting(0), data, c.input);
    ghost var goal := run.(wrote := c.sent + run.wrote);
    assert SendToGo(Waiting(0), data, c.input, c.sent, goal);
    hide SendToGo, BlockOf;
    var crc;
    crc, err := WaitStart(c, data, goal);
    if err.None? {
      err := SendBlocks(c, data, crc, goal);
    }
    if err.None? {
      err := SendEnd(c, data, goal);
    }
    OverToGo(err, data, c.input, c.sent, goal);
  }

  /** The loop over the blocks. */
  method SendBlocks(c: Conn, data: seq<Octet>, crc: bool, ghost goal: SendResult) returns (err: Option<Error>)
    requires SendToGo(At(data, 0, crc), data, c.input, c.sent, goal)
    modifies c
    ensures SendToGo(if err.None? then Ending(0) else Finished(err), data, c.input, c.sent, goal)
  {
    hide SendToGo, BlockOf, Next;
    err := None;
    var blk: Octet := 1;
    var off := 0;
    ghost var k := 0;
    while off < |data|
      invariant err.None? && off == BLOCK * k && k <= Count(data) && blk == Number(k)
      invariant SendToGo(At(data, k, crc), data, c.input, c.sent, goal)
      decreases |data| - off
    {
      Offset(data, k);
      var block := MakeBlock(data, off);
      err := SendBlock(c, blk, block, crc, data, k, goal);
      if err.Some? { return; }
      blk := Next(blk);
      off := off + BLOCK;
      k := k + 1;
    }
    Offset(data, k);
  }

  lemma Offset(data: seq<Octet>, k: nat)
    requires k <= Count(data)
    ensures BLOCK * k < |data| <==> k < Count(data)
    ensures BLOCK * k / BLOCK == k && BLOCK * k % BLOCK == 0
  {}
}
