/** The frames exchanged with the kernel over the miscellaneous device, and the
    daemon that answers the kernel's requests (src/libecryptfs/miscdev.c). */
module Miscdev {
  import opened Common
  import opened PacketLength
  import opened Packets

  const HELO: Byte := 100
  const QUIT: Byte := 101
  const REQUEST: Byte := 102
  const RESPONSE: Byte := 103
  const MSG_MAX_SIZE := 1024
  const ERROR_COUNT_THRESHOLD := 8

  /* ---- frames ---- */

  datatype Frame = Frame(msgType: Byte, seqNo: Word, msg: Option<seq<Byte>>)

  /** Type, sequence number in network order and, for frames with a message, its length and octets. */
  function EncodeFrame(f: Frame): seq<Byte>
    requires f.msg.Some? ==> |f.msg.value| < LIMIT
  {
    [f.msgType] + ToBigEndian(f.seqNo) +
    if f.msg.None? then [] else EncodeLength(|f.msg.value|).value + f.msg.value
  }

  /** The type, four octets of the number, and a message behind its length. */
  lemma FrameOctets(t: Byte, n: Word, msg: seq<Byte>)
    requires |msg| < 192
    ensures var head := [t, n / 0x100_0000, n / 0x1_0000 % 0x100, n / 0x100 % 0x100, n % 0x100];
      && EncodeFrame(Frame(t, n, None)) == head
      && EncodeFrame(Frame(t, n, Some(msg))) == head + [|msg|] + msg
  {
    assert ToBigEndian(n) == [n / 0x100_0000, n / 0x1_0000 % 0x100, n / 0x100 % 0x100, n % 0x100];
    assert [t] + ToBigEndian(n) + ([|msg|] + msg) == [t] + ToBigEndian(n) + [|msg|] + msg;
  }

  /** What ecryptfs_recv_miscdev makes of the octets it read: only a REQUEST
      carries a message. None is a negative return code. */
  function Recv(octets: seq<Byte>): (r: Option<Frame>)
    ensures r.Some? ==> (r.value.msg.Some? <==> r.value.msgType == REQUEST)
  {
    if |octets| < 5 then None
    else
      var msgType := octets[0];
      var seqNo := FromBigEndian(octets[1..5]);
      if msgType != REQUEST then
        if |octets| == 5 then Some(Frame(msgType, seqNo, None)) else None
      else if |octets| == 5 then None
      else
        var l := DecodeLength(octets[5], if |octets| > 6 then octets[6] else 0);
        if l.None? || |octets| != 5 + l.value.octets + l.value.size then None
        else Some(Frame(msgType, seqNo, Some(octets[5 + l.value.octets..])))
  }

  /** recv accepts a frame exactly when it is, octet for octet, the encoding of
      what it returns: the declared length is the number of octets read. */
  lemma RecvAcceptsExactlyEncodings(octets: seq<Byte>, f: Frame)
    requires f.msg.Some? ==> |f.msg.value| < LIMIT
    requires f.msg.Some? <==> f.msgType == REQUEST
    ensures Recv(octets) == Some(f) <==> octets == EncodeFrame(f)
  {
    if octets == EncodeFrame(f) {
      EncodingIsAccepted(octets, f);
    }
    if Recv(octets) == Some(f) {
      AcceptedIsEncoding(octets, f);
    }
  }

  lemma EncodingIsAccepted(octets: seq<Byte>, f: Frame)
    requires f.msg.Some? ==> |f.msg.value| < LIMIT
    requires (f.msg.Some? <==> f.msgType == REQUEST) && octets == EncodeFrame(f)
    ensures Recv(octets) == Some(f)
  {
    hide ToBigEndian, FromBigEndian, DecodeLength;
    assert octets[1..5] == ToBigEndian(f.seqNo);
    BigEndianRoundTrip(f.seqNo);
    if f.msg.Some? {
      var e := EncodeLength(|f.msg.value|).value;
      assert octets[5..] == e + f.msg.value;
      assert octets[5] == e[0] && (|e| > 1 ==> octets[6] == e[1]);
      LengthRoundTrip(|f.msg.value|, if |octets| > 6 then octets[6] else 0);
      assert octets[5 + |e|..] == f.msg.value;
    }
  }

  lemma AcceptedIsEncoding(octets: seq<Byte>, f: Frame)
    requires f.msg.Some? ==> |f.msg.value| < LIMIT
    requires Recv(octets) == Some(f)
    ensures octets == EncodeFrame(f)
  {
    hide ToBigEndian, FromBigEndian;
    BigEndianInjective(octets[1..5]);
    if f.msg.Some? {
      var b1: Byte := if |octets| > 6 then octets[6] else 0;
      AcceptedPrefixIsWritten(octets[5], b1);
      var n := DecodeLength(octets[5], b1).value.octets;
      assert octets == [octets[0]] + octets[1..5] + (octets[5..5 + n] + octets[5 + n..]);
      assert octets[5..5 + n] == EncodeLength(|f.msg.value|).value;
    } else {
      assert octets == [octets[0]] + octets[1..5] + [];
    }
  }

  /** The octets of a message's length and of the message, as many as fit the code. */
  function SizedMessage(msg: Option<seq<Byte>>): seq<Byte>
    requires msg.Some? ==> |msg.value| < 65536
  {
    if msg.None? then [] else EncodeLength(|msg.value|).value + msg.value
  }

  /** ecryptfs_send_miscdev: fills a buffer at a running index. A message is the
      memory of the struct: index, data_len in host order, and data_len octets. */
  method SendMiscdev(msg: Option<seq<Byte>>, msgType: Byte, seqNo: Word) returns (rc: int, frame: array<Byte>)
    ensures rc == 0 || rc == -EINVAL
    ensures rc == 0 <==> (msg.None? || |msg.value| < 65536)
    ensures fresh(frame)
    ensures rc == 0 ==> frame[..] == [msgType] + ToBigEndian(seqNo) + SizedMessage(msg)
  {
    hide EncodeLength, ToBigEndian;
    var lenStr, n := new Byte[3], 0;
    var data := [];
    rc := 0;
    if msg.Some? {
      data := msg.value;
      rc, n := WritePacketLength(lenStr, 0, |data|);
      if rc != 0 {
        frame := new Byte[0];
        return;
      }
    }
    assert msg.Some? ==> lenStr[..n] == EncodeLength(|data|).value;
    frame := new Byte[1 + 4 + n + |data|];
    var i := 0;
    frame[i] := msgType;
    i := i + 1;
    assert frame[..i] == [msgType];
    CopyInto(frame, i, ToBigEndian(seqNo));
    i := i + 4;
    if msg.Some? {
      CopyInto(frame, i, lenStr[..n]);
      i := i + n;
      CopyInto(frame, i, data);
      Associative([msgType] + ToBigEndian(seqNo), lenStr[..n], data);
    }
    assert frame[..] == frame[..1 + 4 + n + |data|];
  }

  /** Below the limit of the length codec that is the encoding of the frame. */
  lemma SentIsEncoded(f: Frame)
    requires f.msg.Some? ==> |f.msg.value| < LIMIT
    ensures [f.msgType] + ToBigEndian(f.seqNo) + SizedMessage(f.msg) == EncodeFrame(f)
  {
  }

  lemma Associative(a: seq<Byte>, b: seq<Byte>, c: seq<Byte>)
    ensures (a + b) + c == a + (b + c)
  {
  }

  /** ecryptfs_recv_miscdev on a buffer whose first `got` octets were read; the
      rest is uninitialised and does not matter. A `got` of -1 is a failed read. */
  method RecvMiscdev(buf: array<Byte>, got: int) returns (rc: int, msgType: Byte, seqNo: Word, msg: seq<Byte>)
    requires buf.Length == MSG_MAX_SIZE && -1 <= got <= MSG_MAX_SIZE
    ensures rc <= 0
    ensures got == -1 ==> rc == -EIO
    ensures got >= 0 ==>
      var r := Recv(buf[..got]);
      && (rc == 0 <==> r.Some?)
      && (rc == 0 ==> r.value == Frame(msgType, seqNo, if msgType == REQUEST then Some(msg) else None))
  {
    msgType, seqNo, msg := 0, 0, [];
    if got == -1 {
      return -EIO, msgType, seqNo, msg;
    }
    if got < 1 + 4 {
      return -EINVAL, msgType, seqNo, msg;
    }
    var i := 0;
    msgType := buf[i];
    i := i + 1;
    seqNo := FromBigEndian(buf[i..i + 4]);
    i := i + 4;
    ghost var octets := buf[..got];
    assert octets[1..5] == buf[1..5];
    var packetLenSize, packetLen := 0, 0;
    if msgType == REQUEST {
      rc, packetLen, packetLenSize := ParsePacketLength(buf, i);
      if rc != 0 {
        return;
      }
      i := i + packetLenSize;
    }
    if 1 + 4 + packetLenSize + packetLen != got {
      return -EINVAL, msgType, seqNo, msg;
    }
    rc := 0;
    msg := buf[i..i + packetLen];
    assert msg == octets[i..];
  }

  /* ---- the daemon ---- */

  datatype ByteOrder = Little | Big

  /** A 32-bit field as it lies in the host's memory. */
  function HostWord(order: ByteOrder, w: Word): (s: seq<Byte>)
    ensures |s| == 4
  {
    var b := ToBigEndian(w);
    if order.Big? then b else [b[3], b[2], b[1], b[0]]
  }

  /** The low octet comes first on a little-endian host, and last on a big-endian one. */
  lemma HostOrder(w: Word)
    ensures HostWord(Little, w) == [w % 0x100, w / 0x100 % 0x100, w / 0x1_0000 % 0x100, w / 0x100_0000]
    ensures HostWord(Big, w) == [w / 0x100_0000, w / 0x1_0000 % 0x100, w / 0x100 % 0x100, w % 0x100]
  {
  }

  /** One turn of the receive loop: the octets that read() returned (None for a
      failed read), what lies in memory behind the received message, and how the
      keyring and the key modules behave at that time. */
  datatype Event = Event(read: Option<seq<Byte>>, beyond: Memory, service: KeyService)

  function Received(e: Event): Option<Frame> {
    if e.read.None? then None else Recv(e.read.value)
  }

  predicate Fails(e: Event) { Received(e).None? }

  predicate Quits(e: Event) { Received(e).Some? && Received(e).value.msgType == QUIT }

  predicate IsRequest(e: Event) { Received(e).Some? && Received(e).value.msgType == REQUEST }

  /** Memory from the start of the received struct ecryptfs_message. */
  function MessageMemory(e: Event): Memory
    requires IsRequest(e)
  {
    var msg := Received(e).value.msg.value;
    (k: nat) => if k < |msg| then msg[k] else e.beyond(k)
  }

  function IndexOf(e: Event): (s: seq<Byte>)
    requires IsRequest(e)
    ensures |s| == 4
  {
    Slice(MessageMemory(e), 0, 4)
  }

  /** emsg->data */
  function DataOf(e: Event): Memory
    requires IsRequest(e)
  {
    var mem := MessageMemory(e);
    (k: nat) => mem(k + 8)
  }

  function AnswerFor(e: Event): Answer
    requires IsRequest(e)
  {
    AnswerTo(DataOf(e), e.service)
  }

  predicate Answered(e: Event) { IsRequest(e) && AnswerFor(e).Reply? }

  /** A request whose key module delivers more than the maximum. */
  predicate IsOversize(e: Event) {
    && IsRequest(e) && ModuleSays(DataOf(e), e.service).Some?
    && Oversize(ModuleSays(DataOf(e), e.service).value, MaxFor(DataOf(e)(0)))
  }

  lemma OversizeIsRequest(e: Event)
    ensures IsOversize(e) ==> IsRequest(e) && !Answered(e)
  {
  }

  /** A HELO or an answered request clears the error count. */
  predicate Resets(e: Event) {
    (Received(e).Some? && Received(e).value.msgType == HELO) || Answered(e)
  }

  /** The position just after the last reset among the first i events. */
  function LastReset(events: seq<Event>, i: nat): (r: nat)
    requires i <= |events|
    ensures r <= i
  {
    if i == 0 || Resets(events[i - 1]) then i else LastReset(events, i - 1)
  }

  function Failures(events: seq<Event>): nat {
    if events == [] then 0
    else Failures(events[..|events| - 1]) + if Fails(events[|events| - 1]) then 1 else 0
  }

  /** Receive errors among the first i events since the last reset. */
  function ErrorsSince(events: seq<Event>, i: nat): nat
    requires i <= |events|
  {
    Failures(events[LastReset(events, i)..i])
  }

  /** Event k is the ninth error since the last reset. */
  predicate IsNinthError(events: seq<Event>, k: nat)
    requires k < |events|
  {
    Fails(events[k]) && ErrorsSince(events, k + 1) > ERROR_COUNT_THRESHOLD
  }

  /** One of the first k frames was accepted. */
  predicate AcceptedBefore(events: seq<Event>, k: nat)
    requires k <= |events|
  {
    exists j :: 0 <= j < k && !Fails(events[j])
  }

  /** Handling event k frees a block that is free already: the message of an
      earlier frame after a receive error, or an oversize key. */
  predicate IsDoubleFree(events: seq<Event>, k: nat)
    requires k < |events|
  {
    IsOversize(events[k]) || (Fails(events[k]) && AcceptedBefore(events, k))
  }

  /** The daemon ends with event k. */
  predicate StopsAt(events: seq<Event>, k: nat)
    requires k < |events|
  {
    Quits(events[k]) || IsNinthError(events, k) || IsDoubleFree(events, k)
  }

  function StopCode(events: seq<Event>, k: nat): int
    requires k < |events|
  {
    if Quits(events[k]) then 0 else if IsNinthError(events, k) then -EIO else FAULT
  }

  lemma ErrorsSinceStep(events: seq<Event>, i: nat)
    requires i < |events|
    ensures ErrorsSince(events, i + 1) ==
      if Resets(events[i]) then 0 else ErrorsSince(events, i) + if Fails(events[i]) then 1 else 0
  {
    if !Resets(events[i]) {
      var r := LastReset(events, i);
      var s := events[r..i + 1];
      assert s[..|s| - 1] == events[r..i];
    }
  }

  /** Answered requests among the first i events. */
  function AnsweredBefore(events: seq<Event>, i: nat): nat
    requires i <= |events|
  {
    if i == 0 then 0 else AnsweredBefore(events, i - 1) + if Answered(events[i - 1]) then 1 else 0
  }

  /** The memory of a message with this index and data. */
  function MessageOctets(order: ByteOrder, index: seq<Byte>, data: seq<Byte>): seq<Byte>
    requires |data| < 0x1_0000_0000
  {
    index + HostWord(order, |data|) + data
  }

  /** The frame is a RESPONSE to e: e's own sequence number and index, and data
      that decode to the reply e calls for. */
  ghost predicate RespondsWith(frame: seq<Byte>, e: Event, order: ByteOrder, data: seq<Byte>)
    requires Answered(e)
  {
    && |data| <= MAX_ENCRYPTED_KEY_BYTES + 4 && Carries(data, AnswerFor(e))
    && frame == EncodeFrame(Frame(RESPONSE, Received(e).value.seqNo, Some(MessageOctets(order, IndexOf(e), data))))
  }

  ghost predicate Responds(frame: seq<Byte>, e: Event, order: ByteOrder)
    requires Answered(e)
  {
    exists data :: RespondsWith(frame, e, order, data)
  }

  /** No response frame exceeds 531 octets, well below the 1024 of the protocol. */
  lemma ResponseSize(frame: seq<Byte>, e: Event, order: ByteOrder)
    requires Answered(e) && Responds(frame, e, order)
    ensures |frame| <= 531 < MSG_MAX_SIZE
  {
    var data :| RespondsWith(frame, e, order, data);
  }

  /** A request with tag 64 or 66 is answered, with the paired tag, exactly if the
      key module's result is not oversize. */
  lemma TaggedRequestsAreAnswered(e: Event)
    requires IsRequest(e) && DataOf(e)(0) in {TAG_64, TAG_66}
    ensures Answered(e) <==> !IsOversize(e)
    ensures Answered(e) ==> AnswerFor(e).tag == if DataOf(e)(0) == TAG_64 then TAG_65 else TAG_67
  {
  }

  /** A request as the kernel frames it is taken apart into the index, sequence
      number, signature and key it was made from, and answered by the key module
      that the signature leads to. */
  lemma FramedRequestIsServed(e: Event, order: ByteOrder, s: Word, index: seq<Byte>, tag: Byte,
                              signature: seq<Byte>, key: seq<Byte>)
    requires |index| == 4 && |signature| < LIMIT && |key| < LIMIT
    requires |RequestPacket(tag, signature, key)| + 8 < LIMIT
    requires e.read == Some(EncodeFrame(Frame(REQUEST, s,
               Some(MessageOctets(order, index, RequestPacket(tag, signature, key))))))
    ensures IsRequest(e) && Received(e).value.seqNo == s && IndexOf(e) == index
    ensures var tok := e.service.findKey(CString(signature, 0));
      AnswerFor(e) ==
        if tok.None? then Reply(PairedTag(tag), None)
        else if tag == TAG_64 then ServedAs(TAG_65, e.service.decrypt(tok.value, key), MAX_KEY_BYTES)
        else if tag == TAG_66 then ServedAs(TAG_67, e.service.encrypt(tok.value, key), MAX_ENCRYPTED_KEY_BYTES)
        else NoReply
  {
    var p := RequestPacket(tag, signature, key);
    var msg := MessageOctets(order, index, p);
    RecvAcceptsExactlyEncodings(e.read.value, Frame(REQUEST, s, Some(msg)));
    hide Recv, ParseRequest, RequestPacket, HostWord;
    assert Slice(MessageMemory(e), 0, 4) == msg[..4] == index;
    var data := DataOf(e);
    forall k | 0 <= k < |p|
      ensures data(0 + k) == p[k]
    {
      assert msg[8 + k] == p[k];
    }
    RequestRoundTrip(tag, signature, key, data);
  }

  /** Tag, status zero, the key's length in one or two octets, and the key. */
  ghost predicate CarriesKey(data: seq<Byte>, tag: Byte, k: seq<Byte>) {
    var n := |k|;
    if n < 192 then 3 + n <= |data| <= 4 + n && data[..3 + n] == [tag, 0, n] + k
    else n <= 512 && 4 + n <= |data| && data[..4 + n] == [tag, 0, 192 + (n - 192) / 256, (n - 192) % 256] + k
  }

  predicate DeliversTooMuch(r: ModuleResult, max: nat) {
    r.Sized? && r.size > 0 && r.key.Some? && |r.key.value| > max
  }

  /** What a reply of this tag holds for the module's result r. */
  ghost predicate Delivers(data: seq<Byte>, tag: Byte, r: ModuleResult) {
    if r.Sized? && r.size > 0 && r.key.Some? then
      CarriesKey(data, tag, r.key.value) && DecodeReply(tag, data) == Good(r.key.value)
    else data == [tag, 255] && DecodeReply(tag, data) == Bad
  }

  lemma CarriesDelivers(data: seq<Byte>, tag: Byte, r: ModuleResult, max: nat)
    requires max <= 512 && Carries(data, ServedAs(tag, r, max))
    ensures Delivers(data, tag, r)
  {
    ServedIff(tag, r, max);
    hide DecodeReply, ServedAs;
    if r.Sized? && r.size > 0 && r.key.Some? {
      var k := r.key.value;
      assert GoodReply(tag, k) == [tag, 0] + EncodeLength(|k|).value + k;
      assert [tag, 0] + EncodeLength(|k|).value ==
        if |k| < 192 then [tag, 0, |k|] else [tag, 0, 192 + (|k| - 192) / 256, (|k| - 192) % 256];
    }
  }

  /** The frame is of type 103, with this sequence number, index and data. */
  ghost predicate IsResponse(frame: seq<Byte>, s: Word, order: ByteOrder, index: seq<Byte>, data: seq<Byte>) {
    |index| == 4 && |data| + 8 < LIMIT
    && frame == EncodeFrame(Frame(103, s, Some(MessageOctets(order, index, data))))
  }

  /** The response to a request with this sequence number and index. */
  ghost predicate RespondsTo(
    frame: seq<Byte>, s: Word, order: ByteOrder, index: seq<Byte>, tag: Byte, r: ModuleResult
  ) {
    exists data :: IsResponse(frame, s, order, index, data) && Delivers(data, tag, r)
  }

  /** The answer to a framed request, octet for octet: with a key k of a nonzero
      size within 64 (or 512) octets, the response carries the paired tag, a zero,
      k's length and k, and decodes to k; otherwise, short of a double free, it
      carries the tag and 255. */
  lemma FramedRequestIsAnswered(e: Event, order: ByteOrder, s: Word, index: seq<Byte>, tag: Byte,
                                signature: seq<Byte>, key: seq<Byte>, frame: seq<Byte>)
    requires |index| == 4 && |signature| < LIMIT && |key| < LIMIT && tag in {0x40, 0x42}
    requires |RequestPacket(tag, signature, key)| + 8 < LIMIT
    requires e.read == Some(EncodeFrame(Frame(REQUEST, s,
               Some(MessageOctets(order, index, RequestPacket(tag, signature, key))))))
    requires Answered(e) ==> Responds(frame, e, order)
    ensures var reply, max := if tag == 0x40 then 0x41 else 0x43, if tag == 0x40 then 64 else 512;
      var tok := e.service.findKey(CString(signature, 0));
      var r := if tok.None? then NoSize
               else if tag == 0x40 then e.service.decrypt(tok.value, key) else e.service.encrypt(tok.value, key);
      && (Answered(e) <==> !DeliversTooMuch(r, max))
      && (Answered(e) ==> RespondsTo(frame, s, order, index, reply, r))
  {
    var reply, max := if tag == 0x40 then 0x41 else 0x43, if tag == 0x40 then 64 else 512;
    var tok := e.service.findKey(CString(signature, 0));
    var r := if tok.None? then NoSize
             else if tag == 0x40 then e.service.decrypt(tok.value, key) else e.service.encrypt(tok.value, key);
    FramedRequestIsServed(e, order, s, index, tag, signature, key);
    ServedIff(reply, r, max);
    assert AnswerFor(e) == ServedAs(reply, r, max);
    hide Received, DecodeReply, EncodeFrame, MessageOctets, CString, Carries, Delivers, ServedAs, AnswerFor;
    if Answered(e) {
      var data :| RespondsWith(frame, e, order, data);
      CarriesDelivers(data, reply, r, max);
      assert IsResponse(frame, s, order, index, data);
    }
  }

  /** read() fills a fresh buffer, which recv then takes apart. */
  method Receive(e: Event) returns (rc: int, msgType: Byte, seqNo: Word)
    requires e.read.Some? ==> |e.read.value| <= MSG_MAX_SIZE
    ensures rc <= 0 && (rc < 0 <==> Fails(e))
    ensures rc == 0 ==> Received(e).value.msgType == msgType && Received(e).value.seqNo == seqNo
    ensures IsRequest(e) <==> rc == 0 && msgType == REQUEST
    ensures Quits(e) <==> rc == 0 && msgType == QUIT
  {
    hide Recv;
    var buf := new Byte[MSG_MAX_SIZE];
    var got := -1;
    if e.read.Some? {
      CopyInto(buf, 0, e.read.value);
      got := |e.read.value|;
      assert buf[..got] == e.read.value;
    }
    var msg;
    rc, msgType, seqNo, msg := RecvMiscdev(buf, got);
  }

  /** Parses the received message and sends the reply, if there is one. */
  method Answer(e: Event, seqNo: Word, order: ByteOrder) returns (rc: int, frame: seq<Byte>)
    requires IsRequest(e) && Received(e).value.seqNo == seqNo
    ensures rc == 0 <==> Answered(e)
    ensures rc == FAULT <==> IsOversize(e)
    ensures rc == 0 ==> Responds(frame, e, order)
  {
    var reply;
    rc, reply := ParsePacket(DataOf(e), e.service);
    frame := [];
    if rc == 0 {
      reply.index := IndexOf(e);
      var data := reply.data[..reply.dataLen];
      var msg := MessageOctets(order, reply.index, data);
      var buf;
      rc, buf := SendMiscdev(Some(msg), RESPONSE, seqNo);
      SentIsEncoded(Frame(RESPONSE, seqNo, Some(msg)));
      frame := buf[..];
      assert RespondsWith(frame, e, order, data);
    }
  }

  /** One turn of the receive loop. An accepted frame gets a new message block; a
      receive error leaves the pointer to the last one, and every turn that goes
      on frees it. */
  method HandleEvent(e: Event, errors: nat, last: Block, order: ByteOrder)
    returns (rc: int, stop: bool, errorCount: nat, emsg: Block, reply: Option<seq<Byte>>)
    requires e.read.Some? ==> |e.read.value| <= MSG_MAX_SIZE
    ensures stop <==> Quits(e) || IsOversize(e) || (Fails(e) && (errors + 1 > ERROR_COUNT_THRESHOLD || last.Freed?))
    ensures stop ==>
      rc == if Quits(e) then 0 else if Fails(e) && errors + 1 > ERROR_COUNT_THRESHOLD then -EIO else FAULT
    ensures errorCount == if Resets(e) then 0 else errors + if Fails(e) then 1 else 0
    ensures Fails(e) ==> !Resets(e)
    ensures !stop ==> emsg == if Fails(e) && last.Null? then Null else Freed
    ensures reply.Some? <==> Answered(e)
    ensures reply.Some? ==> Responds(reply.value, e, order)
  {
    OversizeIsRequest(e);
    hide Recv, Responds, AnswerFor, Received, IsOversize;
    stop, errorCount, emsg, reply := false, errors, last, None;
    var msgType, seqNo;
    rc, msgType, seqNo := Receive(e);
    if rc < 0 {
      errorCount := errorCount + 1;
      if errorCount > ERROR_COUNT_THRESHOLD {
        rc, stop := -EIO, true;
        return;
      }
    } else {
      emsg := Live;
      if msgType == HELO {
        errorCount := 0;
      } else if msgType == QUIT {
        var fatal;
        emsg, fatal := FreeBlock(emsg);
        rc, stop := 0, true;
        return;
      } else if msgType == REQUEST {
        var frame;
        rc, frame := Answer(e, seqNo, order);
        if rc == FAULT {
          stop := true;
          return;
        }
        if rc == 0 {
          reply := Some(frame);
          errorCount := 0;
        }
      }
    }
    var fatal;
    emsg, fatal := FreeBlock(emsg);
    if fatal {
      rc, stop := FAULT, true;
    }
  }

  /** None of the first i events stops the daemon. */
  ghost predicate RunsThrough(events: seq<Event>, i: nat)
    requires i <= |events|
  {
    forall k :: 0 <= k < i ==> !StopsAt(events, k)
  }

  /** The frames sent for the first i events: the response to each answered
      request, once and in the order of the requests, and nothing else. */
  ghost predicate AnswersInOrder(events: seq<Event>, i: nat, sent: seq<seq<Byte>>, order: ByteOrder)
    requires i <= |events|
  {
    && |sent| == AnsweredBefore(events, i)
    && (forall k :: 0 <= k < i && Answered(events[k]) ==>
          AnsweredBefore(events, k) < |sent| && Responds(sent[AnsweredBefore(events, k)], events[k], order))
  }

  lemma AnswersStep(events: seq<Event>, i: nat, sent: seq<seq<Byte>>, order: ByteOrder, frame: seq<Byte>)
    requires i < |events| && AnswersInOrder(events, i, sent, order)
    requires Answered(events[i]) ==> Responds(frame, events[i], order)
    ensures AnswersInOrder(events, i + 1, if Answered(events[i]) then sent + [frame] else sent, order)
  {
    hide Answered, Responds;
  }

  /** ecryptfs_run_miscdev_daemon on a finite stream of events: `handled` of them
      were consumed, `sent` are the frames written, and `stopped` tells whether
      the loop has ended or is still waiting for input. The loop ends exactly at
      the first event that stops it. */
  method RunDaemon(events: seq<Event>, order: ByteOrder)
    returns (rc: int, sent: seq<seq<Byte>>, handled: nat, stopped: bool)
    requires forall k :: 0 <= k < |events| && events[k].read.Some? ==> |events[k].read.value| <= MSG_MAX_SIZE
    ensures handled <= |events| && (if stopped then handled > 0 else handled == |events|)
    ensures RunsThrough(events, if stopped then handled - 1 else handled)
    ensures stopped ==> StopsAt(events, handled - 1) && rc == StopCode(events, handled - 1)
    ensures AnswersInOrder(events, handled, sent, order)
  {
    hide Responds, Fails, Quits, Resets, Answered, IsOversize;
    rc, sent, handled, stopped := 0, [], 0, false;
    var errorCount, emsg := 0, Null;
    while handled < |events|
      invariant 0 <= handled <= |events|
      invariant errorCount == ErrorsSince(events, handled)
      invariant emsg == if AcceptedBefore(events, handled) then Freed else Null
      invariant RunsThrough(events, handled)
      invariant AnswersInOrder(events, handled, sent, order)
    {
      ErrorsSinceStep(events, handled);
      AcceptedStep(events, handled);
      var reply;
      rc, stopped, errorCount, emsg, reply := HandleEvent(events[handled], errorCount, emsg, order);
      AnswersStep(events, handled, sent, order, reply.GetOr([]));
      if reply.Some? {
        sent := sent + [reply.value];
      }
      handled := handled + 1;
      if stopped {
        return;
      }
    }
  }

  lemma AcceptedStep(events: seq<Event>, k: nat)
    requires k < |events|
    ensures AcceptedBefore(events, k + 1) <==> AcceptedBefore(events, k) || !Fails(events[k])
  {
    hide Fails;
    if AcceptedBefore(events, k) {
      var j :| 0 <= j < k && !Fails(events[j]);
      assert 0 <= j < k + 1 && !Fails(events[j]);
    }
    if !Fails(events[k]) {
      assert 0 <= k < k + 1 && !Fails(events[k]);
    }
  }

  /* ---- when a block is freed twice ---- */

  /** The run ends by freeing a block twice. */
  ghost predicate EndsInDoubleFree(events: seq<Event>) {
    exists k :: EndsInDoubleFreeAt(events, k)
  }

  ghost predicate EndsInDoubleFreeAt(events: seq<Event>, k: nat) {
    k < |events| && RunsThrough(events, k) && StopsAt(events, k) && StopCode(events, k) == FAULT
  }

  /** Where a QUIT or a ninth error would end the stream, if anywhere. */
  function IntendedEnd(events: seq<Event>, k: nat): (end: nat)
    requires k <= |events|
    ensures k <= end <= |events|
    ensures forall i :: k <= i < end ==> !Quits(events[i]) && !IsNinthError(events, i)
    ensures end < |events| ==> Quits(events[end]) || IsNinthError(events, end)
    decreases |events| - k
  {
    if k == |events| || Quits(events[k]) || IsNinthError(events, k) then k else IntendedEnd(events, k + 1)
  }

  /** For every stream: no block is freed twice if and only if, in front of the
      first QUIT or ninth error, no receive error follows an accepted frame and
      no key module's result exceeds its maximum. */
  lemma NoDoubleFreeIff(events: seq<Event>)
    ensures var end := IntendedEnd(events, 0);
      !EndsInDoubleFree(events) <==>
        && (forall k :: 0 <= k < end ==> !IsOversize(events[k]))
        && (forall j, k :: 0 <= j < k < end && !Fails(events[j]) ==> !Fails(events[k]))
  {
    hide Fails, Quits, IsOversize, IsNinthError;
    var end := IntendedEnd(events, 0);
    if EndsInDoubleFree(events) {
      var k: nat :| EndsInDoubleFreeAt(events, k);
      assert end < |events| ==> StopsAt(events, end);
      if Fails(events[k]) {
        OversizeIsRequest(events[k]);
      }
      assert IsDoubleFree(events, k);
    } else {
      forall k | 0 <= k < end
        ensures !IsDoubleFree(events, k) && !IsOversize(events[k])
      {
        NoneAtAll(events, end, k);
      }
      forall j, k | 0 <= j < k < end && !Fails(events[j])
        ensures !Fails(events[k])
      {
        assert AcceptedBefore(events, k) && !IsDoubleFree(events, k);
      }
    }
  }

  lemma {:induction false} NoneAtAll(events: seq<Event>, end: nat, k: nat)
    requires k < end == IntendedEnd(events, 0) && !EndsInDoubleFree(events)
    ensures forall i :: 0 <= i <= k ==> !IsDoubleFree(events, i)
  {
    hide Fails, Quits, IsOversize, IsNinthError, IsDoubleFree;
    if k > 0 {
      NoneAtAll(events, end, k - 1);
    }
    assert RunsThrough(events, k);
    if IsDoubleFree(events, k) {
      assert EndsInDoubleFreeAt(events, k);
    }
  }

  /** Without a double free the loop ends exactly with a QUIT or the ninth error
      since the last reset. */
  lemma EndsAsIntended(events: seq<Event>, k: nat)
    requires k < |events| && RunsThrough(events, k) && StopsAt(events, k) && !EndsInDoubleFree(events)
    ensures k == IntendedEnd(events, 0) && StopCode(events, k) == if Quits(events[k]) then 0 else -EIO
  {
    hide Fails, Quits, IsOversize, IsNinthError;
    var end := IntendedEnd(events, 0);
    assert end < |events| ==> StopsAt(events, end);
    assert StopCode(events, k) == FAULT <==> EndsInDoubleFreeAt(events, k);
  }

  /** A HELO frame, of type 100, clears the error count; a QUIT frame, of type 101,
      ends the loop with success. */
  lemma ControlFrames(events: seq<Event>, i: nat, n: Word)
    requires i < |events|
    ensures events[i].read == Some(EncodeFrame(Frame(100, n, None))) ==>
      ErrorsSince(events, i + 1) == 0 && !StopsAt(events, i)
    ensures events[i].read == Some(EncodeFrame(Frame(101, n, None))) ==>
      StopsAt(events, i) && StopCode(events, i) == 0
  {
    ErrorsSinceStep(events, i);
    if events[i].read == Some(EncodeFrame(Frame(100, n, None))) {
      RecvAcceptsExactlyEncodings(events[i].read.value, Frame(100, n, None));
    }
    if events[i].read == Some(EncodeFrame(Frame(101, n, None))) {
      RecvAcceptsExactlyEncodings(events[i].read.value, Frame(101, n, None));
    }
    hide Recv, EncodeFrame, ErrorsSince;
  }

  /** When nothing ever arrives, the ninth failure ends the loop, with -EIO. */
  lemma NineFailures(events: seq<Event>, k: nat)
    requires k < |events| && forall j :: 0 <= j <= k ==> Fails(events[j])
    ensures ErrorsSince(events, k + 1) == k + 1
    ensures StopsAt(events, k) <==> k >= 8
    ensures k >= 8 ==> StopCode(events, k) == -5
  {
    FailuresSoFar(events, k + 1);
    hide Fails;
    if IsOversize(events[k]) {
      OversizeIsRequest(events[k]);
    }
  }

  lemma {:induction false} FailuresSoFar(events: seq<Event>, i: nat)
    requires i <= |events| && forall j :: 0 <= j < i ==> Fails(events[j])
    ensures ErrorsSince(events, i) == i
  {
    if i == 0 {
      assert events[0..0] == [];
    } else {
      FailuresSoFar(events, i - 1);
      ErrorsSinceStep(events, i - 1);
      assert Fails(events[i - 1]);
    }
  }

  /** A HELO and then a failed read is enough. */
  lemma HeloThenFailedRead(helo: Event, failed: Event)
    requires helo.read == Some(EncodeFrame(Frame(HELO, 0, None))) && failed.read == None
    ensures EndsInDoubleFree([helo, failed])
  {
    var events := [helo, failed];
    RecvAcceptsExactlyEncodings(helo.read.value, Frame(HELO, 0, None));
    hide Recv;
    assert !Fails(events[0]) && Fails(events[1]);
    ErrorsSinceStep(events, 0);
    ErrorsSinceStep(events, 1);
    assert EndsInDoubleFreeAt(events, 1);
  }
}
