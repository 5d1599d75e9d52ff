/** `Send` and `Receive` joined by two pipes that lose nothing: what each of them writes is what the
    other reads. */
module XmodemClean {
  import opened Options
  import opened Octets
  import opened Xmodem
  import opened XmodemLink

  /** What the receiver answers from block k on: an ACK for each block and for the EOT, or two CANs at
      the block that makes the output exceed 1 MiB. */
  function Answers(data: seq<Octet>, k: nat): seq<Octet>
    decreases Count(data) - k
  {
    if k >= Count(data) then [ACK]
    else if BLOCK * (k + 1) > MAX_RECEIVE then [CAN, CAN]
    else [ACK] + Answers(data, k + 1)
  }

  function Outcomes(data: seq<Octet>): (Option<Error>, Outcome) {
    if |Padded(data)| <= MAX_RECEIVE then (None, Got(Trimmed(data))) else (Some(ErrCanceled), Failed(ErrTooLarge))
  }

  /** What the sender does with those answers from block k on. */
  function Sent(data: seq<Octet>, k: nat, crc: bool): SendResult {
    SoundAt(data, k, crc);
    SendRun(At(data, k, crc), data, Arriving(Answers(data, k)))
  }

  lemma SoundAt(data: seq<Octet>, k: nat, crc: bool)
    ensures Sound(At(data, k, crc), data)
  {}

  lemma ArrivingNext(b: Octet, more: seq<Octet>)
    ensures Arriving([b] + more) == [Byte(b)] + Arriving(more)
  {}

  lemma ArrivingBoth(a: seq<Octet>, b: seq<Octet>)
    ensures Arriving(a + b) == Arriving(a) + Arriving(b)
  {}

  /** The sender's part, one step. */
  lemma SentNext(data: seq<Octet>, k: nat, crc: bool)
    requires k <= Count(data)
    ensures k == Count(data) ==> Sent(data, k, crc).err == None && Sent(data, k, crc).wrote == [EOT]
    ensures k < Count(data) ==>
              var frame := Message(Sending(k, 0, crc), data);
              if BLOCK * (k + 1) > MAX_RECEIVE then
                Sent(data, k, crc).err == Some(ErrCanceled) && Sent(data, k, crc).wrote == frame
              else
                && Sent(data, k, crc).err == Sent(data, k + 1, crc).err
                && Sent(data, k, crc).wrote == frame + Sent(data, k + 1, crc).wrote
  {
    hide SendRun, Count;
    SoundAt(data, k, crc);
    SoundAt(data, k + 1, crc);
    if k == Count(data) {
      ArrivingNext(ACK, []);
      assert [ACK] + [] == [ACK];
      RunStep(Ending(0), data, Byte(ACK), Arriving([]));
      FinishedRun(None, data, Arriving([]));
      assert [EOT] + [] + [] == [EOT];
    } else {
      var s, frame := Sending(k, 0, crc), Message(Sending(k, 0, crc), data);
      hide Message;
      if BLOCK * (k + 1) > MAX_RECEIVE {
        ArrivingNext(CAN, [CAN]);
        assert [CAN] + [CAN] == [CAN, CAN];
        RunStep(s, data, Byte(CAN), Arriving([CAN]));
        FinishedRun(Some(ErrCanceled), data, Arriving([CAN]));
        assert frame + [] + [] == frame;
      } else {
        ArrivingNext(ACK, Answers(data, k + 1));
        RunStep(s, data, Byte(ACK), Arriving(Answers(data, k + 1)));
        assert frame + [] == frame;
      }
    }
  }

  /** The receiver's part: what the frame of block k leads to. */
  lemma FrameRuns(st: Recv, data: seq<Octet>, k: nat, rest: seq<Event>)
    requires k < Count(data) && HasTaken(st, data, k)
    ensures var p := RecvPass(st, Arriving(Message(Sending(k, 0, st.crc), data)) + rest);
            if BLOCK * (k + 1) > MAX_RECEIVE then
              p.over == Some(Failed(ErrTooLarge)) && p.wrote == [CAN, CAN] && p.rest == rest
            else
              && p.over == None && p.wrote == [ACK] && p.rest == rest
              && !p.state.starting && p.state.crc == st.crc && HasTaken(p.state, data, k + 1)
  {
    var own, st1 := BlockOf(data, k), st.(starting := false);
    OwnCheckFits(own, st.crc);
    SameTaken(st, st1, data, k);
    hide RecvPass, Fits, CheckBytes, BlockOf, Accept, HasTaken;
    FramePass(st, Number(k), own, CheckBytes(own, st.crc), rest);
    AcceptRest(st1, Some(Block(own, Number(k))), rest);
    if BLOCK * (k + 1) > MAX_RECEIVE {
      LargePass(st1, data, k);
    } else {
      TakenPass(st1, data, k);
      AckOnly(Accept(st1, Some(Block(own, Number(k))), []));
      AcceptKeeps(st1, Some(Block(own, Number(k))));
    }
  }

  lemma AckOnly(p: Pass)
    requires Answer(p) == [ACK] && p.over == None && !p.state.starting
    ensures p.wrote == [ACK]
  {}

  lemma AcceptKeeps(st: Recv, block: Option<Block>)
    ensures Accept(st, block, []).state.starting == st.starting
  {}

  lemma LargePass(st: Recv, data: seq<Octet>, k: nat)
    requires k < Count(data) && HasTaken(st, data, k) && BLOCK * (k + 1) > MAX_RECEIVE
    ensures var p := Accept(st, Some(Block(BlockOf(data, k), Number(k))), []);
            p.over == Some(Failed(ErrTooLarge)) && p.wrote == [CAN, CAN]
  {
    hide BlockOf, Padded;
    PaddedPrefix(data, k);
  }

  /** From block k on: fed what the sender writes on reading the answers, the receiver gives the
      answers. */
  lemma {:induction false} PipesFrom(st: Recv, data: seq<Octet>, k: nat)
    requires k <= Count(data) && HasTaken(st, data, k) && BLOCK * k <= MAX_RECEIVE
    ensures var r := RecvRun(st, Arriving(Sent(data, k, st.crc).wrote));
            && Sent(data, k, st.crc).err == Outcomes(data).0
            && r == RecvResult(Outcomes(data).1, Answers(data, k), [])
    decreases Count(data) - k
  {
    hide Sent, RecvPass, HasTaken, Trimmed, Message, Padded;
    SentNext(data, k, st.crc);
    PaddedSize(data);
    if k == Count(data) {
      EndRuns(st, data);
    } else {
      var frame, later := Message(Sending(k, 0, st.crc), data), Arriving(Sent(data, k + 1, st.crc).wrote);
      if BLOCK * (k + 1) > MAX_RECEIVE {
        FrameRuns(st, data, k, []);
        assert Arriving(frame) + [] == Arriving(frame);
      } else {
        FrameRuns(st, data, k, later);
        ArrivingBoth(frame, Sent(data, k + 1, st.crc).wrote);
        PipesFrom(RecvPass(st, Arriving(frame) + later).state, data, k + 1);
        assert [ACK] + [] == [ACK];
      }
    }
  }

  lemma PaddedSize(data: seq<Octet>)
    ensures |Padded(data)| == BLOCK * Count(data)
  {}

  lemma EndRuns(st: Recv, data: seq<Octet>)
    requires HasTaken(st, data, Count(data))
    ensures RecvRun(st, Arriving([EOT])) == RecvResult(Got(Trimmed(data)), [ACK], [])
  {
    AllTaken(st, data);
    TrimmedPadded(data);
    EndPass(st);
    hide RecvPass, Padded, Trimmed, HasTaken;
  }

  /** The whole of what the receiver writes, start character included. */
  function Replies(data: seq<Octet>): seq<Octet> { StartByte(FRESH) + Answers(data, 0) }

  /** `Send` and `Receive` as they are called, on a clean link: the receiver, reading what the sender
      writes, writes what the sender reads; the transfer delivers the data without its trailing 0x1A
      bytes if its padded size is at most 1 MiB, and both ends report an error if it is more. */
  lemma CleanLink(data: seq<Octet>)
    ensures var s := SendRun(Waiting(0), data, Arriving(Replies(data)));
            var r := RecvRun(FRESH, Arriving(s.wrote));
            && s.err == Outcomes(data).0 && r.outcome == Outcomes(data).1
            && StartByte(FRESH) + r.wrote == Replies(data) && r.rest == []
  {
    SoundAt(data, 0, true);
    StartTaken(data);
    ArrivingNext(CRC_CHAR, Answers(data, 0));
    PipesFrom(FRESH, data, 0);
    hide SendRun, RecvRun, Outcomes, Answers, Count;
    RunStep(Waiting(0), data, Byte(CRC_CHAR), Arriving(Answers(data, 0)));
    assert [] + [] + Sent(data, 0, true).wrote == Sent(data, 0, true).wrote;
  }

  lemma StartTaken(data: seq<Octet>)
    ensures HasTaken(FRESH, data, 0)
  {}
}
