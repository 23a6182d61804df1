/** Requests from the kernel and the replies to them: tag 64 (decrypt) is
    answered by tag 65, tag 66 (encrypt) by tag 67 (src/libecryptfs/packets.c). */
module Packets {
  import opened Common
  import opened PacketLength

  const TAG_64: Byte := 0x40
  const TAG_65: Byte := 0x41
  const TAG_66: Byte := 0x42
  const TAG_67: Byte := 0x43
  const STATUS_GOOD: Byte := 0
  const STATUS_BAD: Byte := 255
  const MAX_KEY_BYTES := 64
  const MAX_ENCRYPTED_KEY_BYTES := 512

  /** Memory from some address on; the parser does not check that what it reads
      lies inside the message. */
  type Memory = nat -> Byte

  function Slice(mem: Memory, from: nat, n: nat): (s: seq<Byte>)
    ensures |s| == n
    ensures forall k :: 0 <= k < n ==> s[k] == mem(from + k)
  {
    seq(n, k requires 0 <= k => mem(from + k))
  }

  /* ---- the key service: keyring and key modules ---- */

  type Token = nat

  /** What a key module's encrypt or decrypt does: it fails to tell a size, or it
      tells one and then fails or delivers a key. */
  datatype ModuleResult = NoSize | Sized(size: nat, key: Option<seq<Byte>>)

  datatype KeyService = KeyService(
    findKey: seq<Byte> -> Option<Token>,
    decrypt: (Token, seq<Byte>) -> ModuleResult,
    encrypt: (Token, seq<Byte>) -> ModuleResult)

  /** The module delivered more than the maximum. */
  predicate Oversize(r: ModuleResult, max: nat) {
    r.Sized? && r.size > 0 && r.key.Some? && |r.key.value| > max
  }

  /** What comes of the result: the key, or a refusal of a failure, of a size of
      zero or of an oversize key. */
  function Accept(r: ModuleResult, max: nat): (key: Option<seq<Byte>>)
    ensures key.Some? ==> |key.value| <= max
  {
    if r.NoSize? || r.size == 0 || r.key.None? || |r.key.value| > max then None else r.key
  }

  /** key_mod_encrypt and key_mod_decrypt: ask for the size, allocate, then ask
      for the key. An oversize key is freed here, but the caller keeps the pointer. */
  method CallModule(r: ModuleResult, max: nat) returns (rc: int, keyOut: Block, key: seq<Byte>)
    ensures rc == 0 <==> Accept(r, max).Some?
    ensures rc == 0 ==> keyOut.Live? && Accept(r, max) == Some(key)
    ensures keyOut.Freed? <==> Oversize(r, max)
  {
    rc, keyOut, key := 0, Null, [];
    if r.NoSize? {
      return -EIO, keyOut, key;
    }
    if r.size == 0 {
      return -EINVAL, keyOut, key;
    }
    keyOut := Live;
    if r.key.None? {
      return -EIO, keyOut, key;
    }
    key := r.key.value;
    if |key| > max {
      rc := -EINVAL;
      var fatal;
      keyOut, fatal := FreeBlock(keyOut);
    }
  }

  /* ---- requests ---- */

  datatype Request = Request(signature: seq<Byte>, key: seq<Byte>)

  /** The fields of a request, laid out as type, length, signature, length, key. */
  function ParseRequest(data: Memory): Option<Request> {
    var l1 := DecodeLength(data(1), data(2));
    if l1.None? then None
    else
      var i := 1 + l1.value.octets;
      var j := i + l1.value.size;
      var l2 := DecodeLength(data(j), data(j + 1));
      if l2.None? then None
      else Some(Request(Slice(data, i, l1.value.size), Slice(data, j + l2.value.octets, l2.value.size)))
  }

  /** What a request leads to: a reply tag with the produced key or, as a failure,
      without one; no reply to a well-formed packet of unknown type whose key
      exists; or the death of the daemon. */
  datatype Answer = Reply(tag: Byte, key: Option<seq<Byte>>) | NoReply | Death

  function PairedTag(tag: Byte): Byte { if tag == TAG_66 then TAG_67 else TAG_65 }

  /** What the module of a request's key makes of it: None if the packet is
      malformed, its key unknown or its tag neither 64 nor 66. */
  function ModuleSays(data: Memory, service: KeyService): Option<ModuleResult> {
    var r := ParseRequest(data);
    if r.None? then None
    else
      var tok := service.findKey(CString(r.value.signature, 0));
      if tok.None? then None
      else if data(0) == TAG_64 then Some(service.decrypt(tok.value, r.value.key))
      else if data(0) == TAG_66 then Some(service.encrypt(tok.value, r.value.key))
      else None
  }

  function MaxFor(tag: Byte): nat { if tag == TAG_64 then MAX_KEY_BYTES else MAX_ENCRYPTED_KEY_BYTES }

  /** Requests are answered with the paired tag unless the module's result is
      oversize, which is freed twice. */
  function AnswerTo(data: Memory, service: KeyService): (a: Answer)
    ensures a.Death? <==> ModuleSays(data, service).Some? && Oversize(ModuleSays(data, service).value, MaxFor(data(0)))
    ensures data(0) in {TAG_64, TAG_66} && !a.Death? ==> a.Reply?
    ensures a.Reply? ==> a.tag == PairedTag(data(0))
    ensures a.Reply? && a.key.Some? ==>
      |a.key.value| <= if a.tag == TAG_65 then MAX_KEY_BYTES else MAX_ENCRYPTED_KEY_BYTES
  {
    var failure := Reply(PairedTag(data(0)), None);
    var r := ParseRequest(data);
    if r.None? then failure
    else
      var tok := service.findKey(CString(r.value.signature, 0));
      if tok.None? then failure
      else if data(0) == TAG_64 then ServedAs(TAG_65, service.decrypt(tok.value, r.value.key), MAX_KEY_BYTES)
      else if data(0) == TAG_66 then ServedAs(TAG_67, service.encrypt(tok.value, r.value.key), MAX_ENCRYPTED_KEY_BYTES)
      else NoReply
  }

  function ServedAs(tag: Byte, r: ModuleResult, max: nat): Answer {
    if Oversize(r, max) then Death else Reply(tag, Accept(r, max))
  }

  /** In terms of the module's result alone: a reply carries exactly the octets of
      a key of a nonzero announced size that is within the maximum, a reply without
      a key stands for a failure or a size of zero, and the rest kills the daemon. */
  lemma ServedIff(tag: Byte, r: ModuleResult, max: nat)
    ensures forall k :: ServedAs(tag, r, max) == Reply(tag, Some(k)) <==>
      r.Sized? && r.size > 0 && r.key == Some(k) && |k| <= max
    ensures ServedAs(tag, r, max) == Reply(tag, None) <==> r == NoSize || r.size == 0 || r.key == None
    ensures ServedAs(tag, r, max) == Death <==> r.Sized? && r.size > 0 && r.key.Some? && |r.key.value| > max
  {
  }

  /** The packet by which the kernel asks, laid out as the parser expects it. */
  function RequestPacket(tag: Byte, signature: seq<Byte>, key: seq<Byte>): seq<Byte>
    requires |signature| < LIMIT && |key| < LIMIT
  {
    [tag] + EncodeLength(|signature|).value + signature + EncodeLength(|key|).value + key
  }

  lemma RequestOctets(signature: seq<Byte>, key: seq<Byte>)
    requires |signature| < 192 && |key| < 192
    ensures RequestPacket(TAG_64, signature, key) == [0x40, |signature|] + signature + [|key|] + key
    ensures RequestPacket(TAG_66, signature, key) == [0x42, |signature|] + signature + [|key|] + key
  {
    assert [TAG_64] + [|signature|] == [0x40, |signature|] && [TAG_66] + [|signature|] == [0x42, |signature|];
  }

  /** Memory holds s from address `at` on. */
  ghost predicate Holds(data: Memory, at: nat, s: seq<Byte>) {
    forall k :: 0 <= k < |s| ==> data(at + k) == s[k]
  }

  lemma HoldsAppend(data: Memory, at: nat, s: seq<Byte>, t: seq<Byte>)
    requires Holds(data, at, s + t)
    ensures Holds(data, at, s) && Holds(data, at + |s|, t)
  {
    forall k | 0 <= k < |s|
      ensures data(at + k) == s[k]
    {
      assert (s + t)[k] == s[k];
    }
    forall k | 0 <= k < |t|
      ensures data(at + |s| + k) == t[k]
    {
      assert data(at + (|s| + k)) == (s + t)[|s| + k] == t[k];
    }
  }

  lemma HoldsSlice(data: Memory, at: nat, s: seq<Byte>)
    requires Holds(data, at, s)
    ensures Slice(data, at, |s|) == s
  {
  }

  lemma HoldsLength(data: Memory, at: nat, size: nat)
    requires size < LIMIT && Holds(data, at, EncodeLength(size).value)
    ensures DecodeLength(data(at), data(at + 1)) == Some(Length(size, |EncodeLength(size).value|))
  {
    var e := EncodeLength(size).value;
    LengthRoundTrip(size, data(at + 1));
    assert data(at + 0) == e[0];
  }

  /** A request packet is parsed back to its signature and key, whatever follows it in memory. */
  lemma RequestRoundTrip(tag: Byte, signature: seq<Byte>, key: seq<Byte>, data: Memory)
    requires |signature| < LIMIT && |key| < LIMIT
    requires Holds(data, 0, RequestPacket(tag, signature, key))
    ensures data(0) == tag && ParseRequest(data) == Some(Request(signature, key))
  {
    var e1, e2 := EncodeLength(|signature|).value, EncodeLength(|key|).value;
    var h1 := [tag] + e1;
    HoldsAppend(data, 0, h1 + signature + e2, key);
    HoldsAppend(data, 0, h1 + signature, e2);
    HoldsAppend(data, 0, h1, signature);
    HoldsAppend(data, 0, [tag], e1);
    assert [tag][0] == tag && data(0 + 0) == [tag][0];
    var j := 1 + |e1| + |signature|;
    HoldsLength(data, 1, |signature|);
    HoldsSlice(data, 1 + |e1|, signature);
    HoldsLength(data, j, |key|);
    HoldsSlice(data, j + |e2|, key);
  }

  /* ---- replies ---- */

  /** The octets of a good reply. */
  function GoodReply(tag: Byte, key: seq<Byte>): seq<Byte>
    requires |key| < LIMIT
  {
    [tag, STATUS_GOOD] + EncodeLength(|key|).value + key
  }

  datatype Decoded = Good(key: seq<Byte>) | Bad | Garbled

  /** The reader's side of a reply: a status, then a length and a key, with
      anything after the key ignored. */
  function DecodeReply(tag: Byte, data: seq<Byte>): Decoded {
    if |data| < 2 || data[0] != tag then Garbled
    else if data[1] == STATUS_BAD then Bad
    else if data[1] != STATUS_GOOD || |data| == 2 then Garbled
    else
      var l := DecodeLength(data[2], if |data| > 3 then data[3] else 0);
      if l.None? || 2 + l.value.octets + l.value.size > |data| then Garbled
      else Good(data[2 + l.value.octets..][..l.value.size])
  }

  /** A good reply decodes to its key, with or without stray octets behind it. */
  lemma GoodReplyRoundTrip(tag: Byte, key: seq<Byte>, stray: seq<Byte>)
    requires |key| < LIMIT
    ensures DecodeReply(tag, GoodReply(tag, key) + stray) == Good(key)
  {
    var e := EncodeLength(|key|).value;
    var data := GoodReply(tag, key) + stray;
    var b1: Byte := if |data| > 3 then data[3] else 0;
    LengthRoundTrip(|key|, b1);
    assert data[2] == e[0] && (|e| > 1 ==> data[3] == e[1]);
    assert data[2 + |e|..] == key + stray;
  }

  /** struct ecryptfs_message: `index` as its four octets, `data` as allocated. */
  class Message {
    var index: seq<Byte>
    var dataLen: nat
    const data: array<Byte>

    constructor (n: nat)
      ensures fresh(this) && fresh(data) && data.Length == n && |index| == 4 && dataLen == 0
    {
      data := new Byte[n];
      index := [0, 0, 0, 0];
      dataLen := 0;
    }
  }

  method WriteFailurePacket(tag: Byte) returns (reply: Message)
    ensures fresh(reply) && fresh(reply.data) && |reply.index| == 4
    ensures reply.dataLen == reply.data.Length == 2 && reply.data[..] == [tag, STATUS_BAD]
  {
    reply := new Message(2);
    var i := 0;
    reply.data[i] := tag;
    i := i + 1;
    reply.data[i] := STATUS_BAD;
    i := i + 1;
    reply.dataLen := i;
  }

  /** Tag, status, length and key at the front of a buffer of |key| + 4 octets. */
  method FillReply(reply: Message, tag: Byte, key: seq<Byte>) returns (rc: int, i: nat)
    requires reply.data.Length == |key| + 4 && |key| < LIMIT
    modifies reply.data
    ensures rc == 0
    ensures i == |GoodReply(tag, key)| <= reply.data.Length
    ensures reply.data[..i] == GoodReply(tag, key)
  {
    var data := reply.data;
    i := 0;
    data[i] := tag;
    i := i + 1;
    data[i] := STATUS_GOOD;
    i := i + 1;
    var octets;
    rc, octets := WritePacketLength(data, i, |key|);
    assert data[..2] == [tag, STATUS_GOOD];
    i := i + octets;
    assert data[..i] == [tag, STATUS_GOOD] + EncodeLength(|key|).value;
    ghost var header := data[..i];
    var k := 0;
    while k < |key|
      invariant 0 <= k <= |key| && i + |key| <= data.Length
      invariant data[..i + k] == header + key[..k]
    {
      data[i + k] := key[k];
      k := k + 1;
      assert data[..i + k] == data[..i + k - 1] + [key[k - 1]];
    }
    assert key[..k] == key;
    i := i + |key|;
  }

  /** write_tag_65_packet: data_len ends exactly at the key. */
  method WriteTag65Packet(key: seq<Byte>) returns (rc: int, reply: Message)
    requires |key| <= MAX_KEY_BYTES
    ensures fresh(reply) && fresh(reply.data) && |reply.index| == 4
    ensures rc == 0 && reply.dataLen == |GoodReply(TAG_65, key)| == |key| + 3 <= reply.data.Length
    ensures reply.data[..reply.dataLen] == GoodReply(TAG_65, key)
  {
    reply := new Message(|key| + 4);
    var i;
    rc, i := FillReply(reply, TAG_65, key);
    reply.dataLen := i;
  }

  /** write_tag_67_packet: data_len is the size of the buffer, at most one more
      than the octets written. */
  method WriteTag67Packet(key: seq<Byte>) returns (rc: int, reply: Message)
    requires |key| <= MAX_ENCRYPTED_KEY_BYTES
    ensures fresh(reply) && fresh(reply.data) && |reply.index| == 4
    ensures rc == 0 && reply.dataLen == reply.data.Length == |key| + 4
    ensures |GoodReply(TAG_67, key)| <= reply.dataLen <= |GoodReply(TAG_67, key)| + 1
    ensures reply.data[..|GoodReply(TAG_67, key)|] == GoodReply(TAG_67, key)
  {
    reply := new Message(|key| + 4);
    var i;
    rc, i := FillReply(reply, TAG_67, key);
    reply.dataLen := |key| + 4;
  }

  /** A reply message answers: the octets of the packet that `a` calls for, with at
      most one stray octet behind a key, which decode to what it calls for. */
  ghost predicate Carries(data: seq<Byte>, a: Answer) {
    a.Reply? &&
    match a.key
    case None => data == [a.tag, STATUS_BAD] && DecodeReply(a.tag, data) == Bad
    case Some(k) =>
      && |k| < LIMIT && |GoodReply(a.tag, k)| <= |data| <= |GoodReply(a.tag, k)| + 1
      && data[..|GoodReply(a.tag, k)|] == GoodReply(a.tag, k) && DecodeReply(a.tag, data) == Good(k)
  }

  /** The failure path of parse_packet: the reply is written, then the key is freed. */
  method Fail(tag: Byte, keyOut: Block) returns (rc: int, reply: Message?)
    ensures rc == if keyOut.Freed? then FAULT else 0
    ensures rc == 0 <==> reply != null
    ensures reply != null ==>
      && fresh(reply) && fresh(reply.data) && |reply.index| == 4
      && reply.dataLen == reply.data.Length == 2 && reply.data[..] == [PairedTag(tag), STATUS_BAD]
  {
    rc := 0;
    reply := WriteFailurePacket(PairedTag(tag));
    var b, fatal := FreeBlock(keyOut);
    if fatal {
      return FAULT, null;
    }
  }

  /** parse_packet: walks the request with a cursor and writes the reply that
      AnswerTo calls for. */
  method ParsePacket(data: Memory, service: KeyService) returns (rc: int, reply: Message?)
    ensures rc == 0 <==> reply != null
    ensures rc == match AnswerTo(data, service) { case Reply(_, _) => 0 case NoReply => -EINVAL case Death => FAULT }
    ensures reply != null ==>
      && fresh(reply) && fresh(reply.data) && |reply.index| == 4 && reply.dataLen <= reply.data.Length
      && reply.dataLen <= MAX_ENCRYPTED_KEY_BYTES + 4
      && Carries(reply.data[..reply.dataLen], AnswerTo(data, service))
  {
    hide CString;
    var i := 0;
    var packetType := data(i);
    i := i + 1;
    var l1 := DecodeLength(data(i), data(i + 1));
    if l1.None? {
      rc, reply := Fail(packetType, Null);
      return;
    }
    i := i + l1.value.octets;
    var signature := Slice(data, i, l1.value.size);
    i := i + l1.value.size;
    var l2 := DecodeLength(data(i), data(i + 1));
    if l2.None? {
      rc, reply := Fail(packetType, Null);
      return;
    }
    i := i + l2.value.octets;
    var key := Slice(data, i, l2.value.size);
    var tok := service.findKey(CString(signature, 0));
    if tok.None? {
      rc, reply := Fail(packetType, Null);
      return;
    }
    if packetType == TAG_64 {
      rc, reply := Serve(TAG_64, service.decrypt(tok.value, key));
    } else if packetType == TAG_66 {
      rc, reply := Serve(TAG_66, service.encrypt(tok.value, key));
    } else {
      return -EINVAL, null;
    }
  }

  /** The part of parse_packet that has found the key module. */
  method Serve(tag: Byte, r: ModuleResult) returns (rc: int, reply: Message?)
    requires tag == TAG_64 || tag == TAG_66
    ensures rc == 0 <==> reply != null
    ensures rc == if Oversize(r, MaxFor(tag)) then FAULT else 0
    ensures reply != null ==>
      && fresh(reply) && fresh(reply.data) && |reply.index| == 4 && reply.dataLen <= reply.data.Length
      && reply.dataLen <= MAX_ENCRYPTED_KEY_BYTES + 4
      && Carries(reply.data[..reply.dataLen], ServedAs(PairedTag(tag), r, MaxFor(tag)))
  {
    var keyOut, out;
    rc, keyOut, out := CallModule(r, MaxFor(tag));
    if rc != 0 {
      rc, reply := Fail(tag, keyOut);
      return;
    }
    if tag == TAG_64 {
      rc, reply := WriteTag65Packet(out);
      GoodReplyRoundTrip(TAG_65, out, []);
      assert GoodReply(TAG_65, out) + [] == GoodReply(TAG_65, out);
    } else {
      rc, reply := WriteTag67Packet(out);
      ghost var g := GoodReply(TAG_67, out);
      GoodReplyRoundTrip(TAG_67, out, reply.data[|g|..]);
      assert reply.data[..] == g + reply.data[|g|..];
      assert reply.data[..reply.dataLen] == reply.data[..];
    }
    var b, fatal := FreeBlock(keyOut);
    assert !fatal;
  }
}
