/** XMODEM (internal/xmodem/xmodem.go): what each end does, turn by turn, with what it reads.  A turn
    of the sender is one message and one answer; a turn of the receiver is one pass of its loop. */
module Xmodem {
  import opened Options
  import opened Octets
  import opened Crc

  const SOH: Octet := 0x01
  const EOT: Octet := 0x04
  const ACK: Octet := 0x06
  const NAK: Octet := 0x15
  const CAN: Octet := 0x18
  const SUB: Octet := 0x1A
  const CRC_CHAR: Octet := 0x43

  const BLOCK: nat := 128
  const MAX_RETRIES: nat := 10
  const START_RETRIES: nat := 16
  const MAX_RECEIVE: nat := 0x10_0000

  datatype Error = ErrTimeout | ErrCanceled | ErrTooManyNAK | ErrTooLarge | ErrIO

  /** What a read can bring: a byte, nothing in time, or a broken connection. */
  datatype Event = Byte(b: Octet) | Timeout | Broken

  function Head(input: seq<Event>): Event { if input == [] then Broken else input[0] }

  function Tail(input: seq<Event>): seq<Event> { if input == [] then [] else input[1..] }

  function Arriving(bytes: seq<Octet>): seq<Event> { seq(|bytes|, i requires 0 <= i < |bytes| => Byte(bytes[i])) }

  // ---------------------------------------------------------------- blocks and frames

  function Subs(n: nat): (s: seq<Octet>)
    ensures |s| == n && forall i :: 0 <= i < n ==> s[i] == SUB
  {
    seq(n, _ => SUB)
  }

  function Count(data: seq<Octet>): nat { (|data| + BLOCK - 1) / BLOCK }

  /** The data filled up to whole blocks. */
  function Padded(data: seq<Octet>): (p: seq<Octet>)
    ensures |p| == BLOCK * Count(data) && data <= p
  {
    data + Subs(BLOCK * Count(data) - |data|)
  }

  function BlockOf(data: seq<Octet>, k: nat): (b: seq<Octet>)
    requires k < Count(data)
    ensures |b| == BLOCK
  {
    Padded(data)[BLOCK * k..BLOCK * k + BLOCK]
  }

  /** The number block k goes under: 1 for the first, counted modulo 256. */
  function Number(k: nat): Octet { if k == 0 then 1 else Next(Number(k - 1)) }

  function Next(n: Octet): Octet { n + 1 }

  function Before(n: Octet): Octet { n - 1 }

  function HighByte(w: bv16): Octet { (w >> 8) as Octet }
  function LowByte(w: bv16): Octet { (w & 0xFF) as Octet }
  function Joined(hi: Octet, lo: Octet): bv16 { ((hi as bv16) << 8) | (lo as bv16) }

  lemma JoinedBack(w: bv16)
    ensures Joined(HighByte(w), LowByte(w)) == w
  {}

  function CheckLength(crc: bool): nat { if crc then 2 else 1 }

  function CheckBytes(data: seq<Octet>, crc: bool): (c: seq<Octet>)
    ensures |c| == CheckLength(crc)
  {
    if crc then [HighByte(Crc16(data)), LowByte(Crc16(data))] else [Checksum(data)]
  }

  /** Do the check bytes that arrived fit the data that arrived? */
  predicate Fits(data: seq<Octet>, check: seq<Octet>, crc: bool)
    requires |check| == CheckLength(crc)
  {
    if crc then Crc16(data) == Joined(check[0], check[1]) else Checksum(data) == check[0]
  }

  lemma OwnCheckFits(data: seq<Octet>, crc: bool)
    ensures Fits(data, CheckBytes(data, crc), crc)
  {
    hide Joined, HighByte, LowByte;
    JoinedBack(Crc16(data));
  }

  function Frame(num: Octet, data: seq<Octet>, check: seq<Octet>): seq<Octet> {
    [SOH, num, !num] + data + check
  }

  // ---------------------------------------------------------------- the sender

  datatype Sender =
    | Waiting(tries: nat)
    | Sending(k: nat, tries: nat, crc: bool)
    | Ending(tries: nat)
    | Finished(err: Option<Error>)

  /** What the sender writes before it waits for an answer. */
  function Message(s: Sender, data: seq<Octet>): seq<Octet>
    requires s.Sending? ==> s.k < Count(data)
  {
    match s
    case Sending(k, _, crc) => Frame(Number(k), BlockOf(data, k), CheckBytes(BlockOf(data, k), crc))
    case Ending(_) => [EOT]
    case _ => []
  }

  /** The state after the start, or after block k - 1 has been acknowledged. */
  function At(data: seq<Octet>, k: nat, crc: bool): Sender {
    if k < Count(data) then Sending(k, 0, crc) else Ending(0)
  }

  /** The state after the answer e, and what giving up writes. */
  function SendTurn(s: Sender, data: seq<Octet>, e: Event): (Sender, seq<Octet>) {
    match s
    case Waiting(tries) =>
      if e == Broken then (Finished(Some(ErrIO)), [])
      else if e == Byte(CRC_CHAR) then (At(data, 0, true), [])
      else if e == Byte(NAK) then (At(data, 0, false), [])
      else if e == Byte(CAN) then (Finished(Some(ErrCanceled)), [])
      else if tries + 1 < START_RETRIES then (Waiting(tries + 1), [])
      else (Finished(Some(ErrTimeout)), [])
    case Sending(k, tries, crc) =>
      if e == Broken then (Finished(Some(ErrIO)), [])
      else if e == Byte(ACK) then (At(data, k + 1, crc), [])
      else if e == Byte(CAN) then (Finished(Some(ErrCanceled)), [])
      else if tries + 1 < MAX_RETRIES then (Sending(k, tries + 1, crc), [])
      else (Finished(Some(ErrTooManyNAK)), [CAN, CAN])
    case Ending(tries) =>
      if e == Broken then (Finished(Some(ErrIO)), [])
      else if e == Byte(ACK) then (Finished(None), [])
      else if tries + 1 < MAX_RETRIES then (Ending(tries + 1), [])
      else (Finished(Some(ErrTooManyNAK)), [CAN, CAN])
    case Finished(_) => (s, [])
  }

  predicate Sound(s: Sender, data: seq<Octet>) { s.Sending? ==> s.k < Count(data) }

  lemma SendTurnSound(s: Sender, data: seq<Octet>, e: Event)
    requires Sound(s, data)
    ensures Sound(SendTurn(s, data, e).0, data)
    ensures !s.Finished? && e == Broken ==> SendTurn(s, data, e).0.Finished?
  {}

  /** How a whole run ends: the error if any, everything written, the input left. */
  datatype SendResult = SendResult(err: Option<Error>, wrote: seq<Octet>, rest: seq<Event>)

  function SendRun(s: Sender, data: seq<Octet>, input: seq<Event>): SendResult
    requires Sound(s, data)
    decreases |input|, if s.Finished? then 0 else 1
  {
    if s.Finished? then SendResult(s.err, [], input)
    else
      SendTurnSound(s, data, Head(input));
      var turn := SendTurn(s, data, Head(input));
      var later := SendRun(turn.0, data, Tail(input));
      SendResult(later.err, Message(s, data) + turn.1 + later.wrote, later.rest)
  }

  /** An answer that makes the sender send again. */
  predicate Useless(e: Event) { e != Broken && e != Byte(ACK) && e != Byte(CAN) }

  function Copies(m: seq<Octet>, n: nat): seq<Octet> {
    if n == 0 then [] else m + Copies(m, n - 1)
  }

  /** Ten useless answers to block k end the transfer: the same frame ten times, then two CANs. */
  lemma {:induction false} GivesUp(data: seq<Octet>, k: nat, tries: nat, crc: bool, noise: seq<Event>, rest: seq<Event>)
    requires k < Count(data) && forall i :: 0 <= i < |noise| ==> Useless(noise[i])
    requires tries < MAX_RETRIES && tries + |noise| == MAX_RETRIES
    ensures SendRun(Sending(k, tries, crc), data, noise + rest) ==
            SendResult(Some(ErrTooManyNAK), Copies(Message(Sending(k, 0, crc), data), |noise|) + [CAN, CAN], rest)
    decreases |noise|
  {
    hide Message, Count, SendRun, Useless;
    var frame, more := Message(Sending(k, 0, crc), data), noise[1..];
    TriedRun(data, k, tries, crc, noise[0], more + rest);
    assert noise + rest == [noise[0]] + (more + rest);
    if tries + 1 < MAX_RETRIES {
      GivesUp(data, k, tries + 1, crc, more, rest);
      CopiesNext(frame, |noise|, [CAN, CAN]);
    } else {
      assert more + rest == rest;
      assert frame + Copies(frame, 0) == frame;
    }
  }

  /** Fewer than ten, and an ACK makes up for them all; each has cost one more copy of the frame. */
  lemma {:induction false} Persists(data: seq<Octet>, k: nat, tries: nat, crc: bool, noise: seq<Event>,
      rest: seq<Event>)
    requires k < Count(data) && forall i :: 0 <= i < |noise| ==> Useless(noise[i])
    requires tries + |noise| < MAX_RETRIES
    ensures Sound(At(data, k + 1, crc), data)
    ensures var r := SendRun(At(data, k + 1, crc), data, rest);
            SendRun(Sending(k, tries, crc), data, noise + ([Byte(ACK)] + rest)) ==
            SendResult(r.err, Copies(Message(Sending(k, 0, crc), data), |noise| + 1) + r.wrote, r.rest)
    decreases |noise|
  {
    hide Message, Count, SendRun, Useless;
    AtSound(data, k + 1, crc);
    var frame, wrote := Message(Sending(k, 0, crc), data), SendRun(At(data, k + 1, crc), data, rest).wrote;
    if noise == [] {
      AckedRun(data, k, tries, crc, rest);
      assert noise + ([Byte(ACK)] + rest) == [Byte(ACK)] + rest;
      assert frame + Copies(frame, 0) == frame;
    } else {
      var more := noise[1..];
      TriedRun(data, k, tries, crc, noise[0], more + ([Byte(ACK)] + rest));
      assert noise + ([Byte(ACK)] + rest) == [noise[0]] + (more + ([Byte(ACK)] + rest));
      Persists(data, k, tries + 1, crc, more, rest);
      CopiesNext(frame, |noise| + 1, wrote);
    }
  }

  lemma AtSound(data: seq<Octet>, k: nat, crc: bool)
    ensures Sound(At(data, k, crc), data)
  {}

  lemma CopiesNext(m: seq<Octet>, n: nat, tail: seq<Octet>)
    requires n > 0
    ensures m + (Copies(m, n - 1) + tail) == Copies(m, n) + tail
  {}

  lemma RunStep(s: Sender, data: seq<Octet>, e: Event, rest: seq<Event>)
    requires Sound(s, data) && !s.Finished?
    ensures Sound(SendTurn(s, data, e).0, data)
    ensures var turn := SendTurn(s, data, e);
            var later := SendRun(turn.0, data, rest);
            SendRun(s, data, [e] + rest) == SendResult(later.err, Message(s, data) + turn.1 + later.wrote, later.rest)
  {
    SendTurnSound(s, data, e);
    hide SendTurn, Message, Sound;
    assert Head([e] + rest) == e && Tail([e] + rest) == rest;
  }

  lemma FinishedRun(err: Option<Error>, data: seq<Octet>, input: seq<Event>)
    ensures SendRun(Finished(err), data, input) == SendResult(err, [], input)
  {}

  lemma AckedRun(data: seq<Octet>, k: nat, tries: nat, crc: bool, rest: seq<Event>)
    requires k < Count(data)
    ensures Sound(At(data, k + 1, crc), data)
    ensures var r := SendRun(At(data, k + 1, crc), data, rest);
            SendRun(Sending(k, tries, crc), data, [Byte(ACK)] + rest) ==
            SendResult(r.err, Message(Sending(k, 0, crc), data) + r.wrote, r.rest)
  {
    hide Message, Count, At, SendRun;
    AtSound(data, k + 1, crc);
    SameMessage(data, k, tries, crc);
    RunStep(Sending(k, tries, crc), data, Byte(ACK), rest);
    assert Message(Sending(k, 0, crc), data) + [] == Message(Sending(k, 0, crc), data);
  }

  lemma TriedRun(data: seq<Octet>, k: nat, tries: nat, crc: bool, e: Event, rest: seq<Event>)
    requires k < Count(data) && Useless(e) && tries < MAX_RETRIES
    ensures var frame := Message(Sending(k, 0, crc), data);
            if tries + 1 < MAX_RETRIES then
              var r := SendRun(Sending(k, tries + 1, crc), data, rest);
              SendRun(Sending(k, tries, crc), data, [e] + rest) == SendResult(r.err, frame + r.wrote, r.rest)
            else
              SendRun(Sending(k, tries, crc), data, [e] + rest) ==
              SendResult(Some(ErrTooManyNAK), frame + [CAN, CAN], rest)
  {
    hide Message, Count, At, SendRun;
    SameMessage(data, k, tries, crc);
    RunStep(Sending(k, tries, crc), data, e, rest);
    FinishedRun(Some(ErrTooManyNAK), data, rest);
    var frame := Message(Sending(k, 0, crc), data);
    assert frame + [] == frame && frame + [CAN, CAN] + [] == frame + [CAN, CAN];
  }

  lemma SameMessage(data: seq<Octet>, k: nat, tries: nat, crc: bool)
    requires k < Count(data)
    ensures Message(Sending(k, tries, crc), data) == Message(Sending(k, 0, crc), data)
  {}

  // ---------------------------------------------------------------- other ends of the sender

  lemma JoinedValue(w: bv16)
    ensures ((HighByte(w) as bv16) << 8) + LowByte(w) as bv16 == w
  {}

  /** A frame on the link: SOH, the number and what completes it to 255, the block, and the CRC, high
      byte first, or the sum. */
  lemma FrameOnLink(data: seq<Octet>, k: nat, tries: nat, crc: bool)
    requires k < Count(data)
    ensures var f, block := Message(Sending(k, tries, crc), data), BlockOf(data, k);
            && |f| == (if crc then 133 else 132) && f[0] == 0x01 && f[1] == Number(k) && f[1] + f[2] == 0xFF
            && f[3..131] == block
            && if crc then ((f[131] as bv16) << 8) + f[132] as bv16 == Crc16(block) else f[131] == Checksum(block)
  {
    hide Crc16, Checksum, BlockOf, Number, HighByte, LowByte;
    JoinedValue(Crc16(BlockOf(data, k)));
    Complement(Number(k));
  }

  lemma Complement(n: Octet)
    ensures n + !n == 0xFF
  {}

  /** A byte, or silence, that a waiting sender makes nothing of. */
  predicate NoStart(e: Event) { e != Broken && e != Byte(CRC_CHAR) && e != Byte(NAK) && e != Byte(CAN) }

  /** Sixteen of them end the transfer before it has begun, with nothing written. */
  lemma {:induction false} StartGivesUp(data: seq<Octet>, tries: nat, noise: seq<Event>, rest: seq<Event>)
    requires tries + |noise| == START_RETRIES && noise != [] && forall i :: 0 <= i < |noise| ==> NoStart(noise[i])
    ensures SendRun(Waiting(tries), data, noise + rest) == SendResult(Some(ErrTimeout), [], rest)
    decreases |noise|
  {
    hide SendRun, Count, At;
    var more := noise[1..] + rest;
    RunStep(Waiting(tries), data, noise[0], more);
    assert noise + rest == [noise[0]] + more;
    if |noise| > 1 {
      StartGivesUp(data, tries + 1, noise[1..], rest);
    } else {
      assert more == rest;
      FinishedRun(Some(ErrTimeout), data, rest);
    }
  }

  /** Ten answers other than ACK to the end of the file, CAN included, end the transfer: EOT ten times,
      then two CANs. */
  lemma {:induction false} EndGivesUp(data: seq<Octet>, tries: nat, noise: seq<Event>, rest: seq<Event>)
    requires tries + |noise| == MAX_RETRIES && noise != []
    requires forall i :: 0 <= i < |noise| ==> noise[i] != Broken && noise[i] != Byte(ACK)
    ensures SendRun(Ending(tries), data, noise + rest) ==
            SendResult(Some(ErrTooManyNAK), Copies([EOT], |noise|) + [CAN, CAN], rest)
    decreases |noise|
  {
    hide SendRun, Count, At;
    var more := noise[1..] + rest;
    RunStep(Ending(tries), data, noise[0], more);
    assert noise + rest == [noise[0]] + more;
    if |noise| > 1 {
      EndGivesUp(data, tries + 1, noise[1..], rest);
      CopiesNext([EOT], |noise|, [CAN, CAN]);
      assert [EOT] + [] == [EOT];
    } else {
      assert more == rest;
      FinishedRun(Some(ErrTooManyNAK), data, rest);
      assert Copies([EOT], 1) == [EOT] + Copies([EOT], 0) == [EOT];
    }
  }

  /** A CAN stops a sender that waits or sends, a broken connection stops it anywhere; it writes nothing
      more. */
  lemma SenderStops(s: Sender, data: seq<Octet>, rest: seq<Event>)
    requires Sound(s, data) && !s.Finished?
    ensures !s.Ending? ==>
              SendRun(s, data, [Byte(CAN)] + rest) == SendResult(Some(ErrCanceled), Message(s, data), rest)
    ensures SendRun(s, data, [Broken] + rest) == SendResult(Some(ErrIO), Message(s, data), rest)
  {
    hide SendRun, Message, At;
    RunStep(s, data, Byte(CAN), rest);
    RunStep(s, data, Broken, rest);
    FinishedRun(Some(ErrCanceled), data, rest);
    FinishedRun(Some(ErrIO), data, rest);
    assert Message(s, data) + [] + [] == Message(s, data);
  }

  // ---------------------------------------------------------------- the receiver

  datatype Outcome = Got(data: seq<Octet>) | Failed(error: Error)

  datatype Recv = Recv(out: seq<Octet>, crc: bool, expected: Octet, starting: bool, errCount: nat)

  const FRESH: Recv := Recv([], true, 1, true, 0)

  /** `trimPadding` */
  function Trimmed(data: seq<Octet>): seq<Octet> {
    if data != [] && data[|data| - 1] == SUB then Trimmed(data[..|data| - 1]) else data
  }

  /** n bytes, if they come without interruption; what came before an interruption is lost. */
  function ReadFull(input: seq<Event>, n: nat): (r: (Option<seq<Octet>>, seq<Event>))
    ensures r.0.Some? ==> |r.0.value| == n
    ensures |r.1| <= |input|
    decreases n
  {
    if n == 0 then (Some([]), input)
    else if Head(input).Byte? then
      var r := ReadFull(Tail(input), n - 1);
      (if r.0.Some? then Some([Head(input).b] + r.0.value) else None, r.1)
    else (None, Tail(input))
  }

  datatype Block = Block(data: seq<Octet>, num: Octet)

  /** `readBlock` */
  function ReadBlock(input: seq<Event>, crc: bool): (r: (Option<Block>, seq<Event>))
    ensures |r.1| <= |input|
  {
    var hdr := ReadFull(input, 2);
    if hdr.0.None? || hdr.0.value[0] != !hdr.0.value[1] then (None, hdr.1)
    else
      var body := ReadFull(hdr.1, BLOCK);
      if body.0.None? then (None, body.1)
      else
        var check := ReadFull(body.1, CheckLength(crc));
        if check.0.None? || !Fits(body.0.value, check.0.value, crc) then (None, check.1)
        else (Some(Block(body.0.value, hdr.0.value[0])), check.1)
  }

  /** The character that asks for a start, as long as nothing has come. */
  function StartByte(st: Recv): seq<Octet> {
    if !st.starting then [] else if st.crc then [CRC_CHAR] else [NAK]
  }

  /** One pass of the loop, from the read on: the state it goes on with or the outcome, what it has
      written, and the input left. */
  datatype Pass = Pass(state: Recv, over: Option<Outcome>, wrote: seq<Octet>, rest: seq<Event>)

  function Continue(st: Recv, wrote: seq<Octet>, rest: seq<Event>): Pass {
    Pass(st, None, wrote, rest)
  }

  /** What a block, or the failure to read one, leads to. */
  function Accept(st: Recv, block: Option<Block>, rest: seq<Event>): Pass {
    match block
    case None => Continue(st, [NAK], rest)
    case Some(b) =>
      if b.num == st.expected then
        var st' := st.(out := st.out + b.data, expected := Next(st.expected));
        if |st'.out| > MAX_RECEIVE then Pass(st', Some(Failed(ErrTooLarge)), [CAN, CAN], rest)
        else Continue(st', [ACK], rest)
      else if b.num == Before(st.expected) then Continue(st, [ACK], rest)
      else Continue(st, [NAK], rest)
  }

  lemma AcceptRest(st: Recv, block: Option<Block>, rest: seq<Event>)
    ensures Accept(st, block, rest) == Accept(st, block, []).(rest := rest)
  {}

  function RecvPass(st: Recv, input: seq<Event>): (p: Pass)
    ensures input == [] ==> p.over.Some?
    ensures input != [] ==> |p.rest| < |input|
    ensures |p.rest| <= |input|
  {
    var rest := Tail(input);
    match Head(input)
    case Broken => Pass(st, Some(Failed(ErrIO)), [], rest)
    case Timeout =>
      var n := st.errCount + 1;
      if n > START_RETRIES then Pass(st.(errCount := n), Some(Failed(ErrTimeout)), [CAN, CAN], rest)
      else Continue(st.(errCount := n, crc := st.crc && n < 4), [], rest)
    case Byte(b) =>
      if b == EOT then Pass(st, Some(Got(Trimmed(st.out))), [ACK], rest)
      else if b == CAN then Pass(st, Some(Failed(ErrCanceled)), [], rest)
      else if b == SOH then
        var r := ReadBlock(rest, st.crc);
        Accept(st.(starting := false), r.0, r.1)
      else Continue(st, [], rest)
  }

  /** All the receiver writes from a read to the next: the start character of the next pass included. */
  function Answer(p: Pass): seq<Octet> { p.wrote + (if p.over.None? then StartByte(p.state) else []) }

  datatype RecvResult = RecvResult(outcome: Outcome, wrote: seq<Octet>, rest: seq<Event>)

  /** The loop, after the start character of its first pass. */
  function RecvRun(st: Recv, input: seq<Event>): RecvResult
    decreases |input|
  {
    var p := RecvPass(st, input);
    if p.over.Some? then RecvResult(p.over.value, p.wrote, p.rest)
    else
      var later := RecvRun(p.state, p.rest);
      RecvResult(later.outcome, p.wrote + StartByte(p.state) + later.wrote, later.rest)
  }

  lemma RecvStep(st: Recv, input: seq<Event>)
    ensures var p := RecvPass(st, input);
            RecvRun(st, input) ==
            match p.over
            case Some(o) => RecvResult(o, p.wrote, p.rest)
            case None =>
              var later := RecvRun(p.state, p.rest);
              RecvResult(later.outcome, p.wrote + StartByte(p.state) + later.wrote, later.rest)
  {
    hide RecvPass, StartByte;
  }

  /** A receiver that hears nothing asks three times more for a CRC, thirteen times for a sum, and gives
      up with two CANs at the seventeenth silence. */
  lemma SilenceGivesUp(rest: seq<Event>)
    ensures RecvRun(FRESH, Silences(17) + rest) ==
            RecvResult(Failed(ErrTimeout), Copies([0x43], 3) + Copies([0x15], 13) + [0x18, 0x18], rest)
  {
    hide RecvRun, RecvPass;
    Silent(FRESH, 17, rest);
    AskedTwice();
  }

  function Silences(n: nat): seq<Event> { seq(n, _ => Timeout) }

  /** The start characters a receiver sends at its silences number k to 16. */
  function Asked(k: nat): seq<Octet>
    decreases 17 - k
  {
    if k > 16 then [] else [if k < 4 then 0x43 else 0x15] + Asked(k + 1)
  }

  lemma AskedTwice()
    ensures Asked(1) == Copies([0x43], 3) + Copies([0x15], 13)
  {
    assert Asked(1) == [0x43, 0x43, 0x43] + Asked(4);
    assert Copies([0x43], 3) == [0x43, 0x43, 0x43];
    AskedNak(13);
  }

  lemma {:induction false} AskedNak(n: nat)
    requires n <= 13
    ensures Asked(17 - n) == Copies([0x15], n)
  {
    if n > 0 { AskedNak(n - 1); }
  }

  lemma {:induction false} Silent(st: Recv, n: nat, rest: seq<Event>)
    requires st.starting && n > 0 && st.errCount + n == 17 && (st.crc <==> st.errCount < 4)
    ensures RecvRun(st, Silences(n) + rest) ==
            RecvResult(Failed(ErrTimeout), Asked(st.errCount + 1) + [CAN, CAN], rest)
    decreases n
  {
    hide RecvRun, RecvPass, Asked;
    var input := Silences(n) + rest;
    SilentPass(st, n, rest);
    RecvStep(st, input);
    if n > 1 { Silent(RecvPass(st, input).state, n - 1, rest); }
  }

  lemma SilentPass(st: Recv, n: nat, rest: seq<Event>)
    requires st.starting && n > 0 && st.errCount + n == 17 && (st.crc <==> st.errCount < 4)
    ensures var p := RecvPass(st, Silences(n) + rest); var st' := st.(errCount := st.errCount + 1);
            && p.rest == Silences(n - 1) + rest
            && (n == 1 ==> p.over == Some(Failed(ErrTimeout)) && p.wrote == [CAN, CAN] && p.rest == rest)
            && (n > 1 ==> p.over == None && p.wrote == [] && p.state == st'.(crc := st'.errCount < 4))
            && (n > 1 ==> Asked(st'.errCount) == StartByte(p.state) + Asked(st'.errCount + 1))
    ensures n == 1 ==> Asked(st.errCount + 1) == []
  {
    var input := Silences(n) + rest;
    assert input[0] == Timeout && input[1..] == Silences(n - 1) + rest;
    assert n == 1 ==> Silences(0) + rest == rest;
  }

  /** A CAN or a broken connection stops a receiver anywhere; a byte that begins nothing is passed over,
      with the start character again as long as nothing has come. */
  lemma ReceiverStops(st: Recv, b: Octet, rest: seq<Event>)
    requires b != SOH && b != EOT && b != CAN
    ensures RecvRun(st, [Byte(CAN)] + rest) == RecvResult(Failed(ErrCanceled), [], rest)
    ensures RecvRun(st, [Broken] + rest) == RecvResult(Failed(ErrIO), [], rest)
    ensures var later := RecvRun(st, rest);
            RecvRun(st, [Byte(b)] + rest) == RecvResult(later.outcome, StartByte(st) + later.wrote, later.rest)
  {
    hide RecvRun, StartByte;
    assert ([Byte(CAN)] + rest)[1..] == ([Broken] + rest)[1..] == ([Byte(b)] + rest)[1..] == rest;
    RecvStep(st, [Byte(CAN)] + rest);
    RecvStep(st, [Broken] + rest);
    RecvStep(st, [Byte(b)] + rest);
    assert [] + StartByte(st) == StartByte(st);
  }
}
