/** The one- and two-octet packet lengths of sections 4.2.2.1 and 4.2.2.2 of
    RFC 4880, as src/libecryptfs/messaging.c writes and parses them. */
module PacketLength {
  import opened Common

  /** The first size that the two-octet form cannot express. */
  const LIMIT := 8384

  /** The octets written for a size; None is -EINVAL. The first octet of the
      two-octet form is stored in a char, so it wraps. */
  function EncodeLength(size: nat): (r: Option<seq<Byte>>)
    ensures r.Some? <==> size < 65536
    ensures r.Some? ==> |r.value| == if size < 192 then 1 else 2
  {
    if size < 192 then Some([size])
    else if size < 65536 then Some([((size - 192) / 256 + 192) % 256, (size - 192) % 256])
    else None
  }

  datatype Length = Length(size: nat, octets: nat)

  /** The size announced by the octets b0 and, for a two-octet length, b1. */
  function DecodeLength(b0: Byte, b1: Byte): (r: Option<Length>)
    ensures r.Some? ==> r.value.size < LIMIT && r.value.octets == if b0 < 192 then 1 else 2
  {
    if b0 < 192 then Some(Length(b0, 1))
    else if b0 < 224 then Some(Length((b0 - 192) * 256 + b1 + 192, 2))
    else None
  }

  /** Reading back what was written: s is followed in memory by `after`. */
  function Reread(s: seq<Byte>, after: Byte): Option<Length>
    requires |s| > 0
  {
    DecodeLength(s[0], if |s| > 1 then s[1] else after)
  }

  /** Write-then-parse returns the size exactly when it is below 8384. */
  lemma LengthRoundTrip(size: nat, after: Byte)
    requires size < 65536
    ensures var s := EncodeLength(size).value;
      Reread(s, after) == Some(Length(size, |s|)) <==> size < LIMIT
  {
    if size >= 192 {
      var q := (size - 192) / 256;
      assert size == 192 + q * 256 + (size - 192) % 256;
      if size < LIMIT {
        assert (q + 192) % 256 == q + 192 < 224;
      } else {
        assert q >= 32;
        assert (q + 192) % 256 == if q < 64 then q + 192 else q - 64;
      }
    }
  }

  /** Every accepted prefix is the one that is written for its size, so sizes
      below 8384 and accepted prefixes correspond one to one. */
  lemma AcceptedPrefixIsWritten(b0: Byte, b1: Byte)
    ensures var d := DecodeLength(b0, b1);
      d.Some? ==> EncodeLength(d.value.size) == Some(if d.value.octets == 1 then [b0] else [b0, b1])
  {
    if 192 <= b0 < 224 {
      var size := (b0 - 192) * 256 + b1 + 192;
      assert (size - 192) / 256 == b0 - 192 && (size - 192) % 256 == b1;
      assert (b0 - 192 + 192) % 256 == b0;
    }
  }

  /** Sizes compare as their octets do; with the correspondence above, this leaves
      no other code. */
  lemma LengthOrder(a: nat, b: nat)
    requires a < LIMIT && b < LIMIT
    ensures Before(EncodeLength(a).value, EncodeLength(b).value) <==> a < b
  {
    var s, t := EncodeLength(a).value, EncodeLength(b).value;
    assert Before(s[1..], t[1..]) <==> |s| == |t| == 2 && s[1] < t[1];
  }

  /** The examples of section 4.2.3 of RFC 4880: 100 is 64 and 1723 is C5 FB, in hex. */
  lemma StandardExamples()
    ensures EncodeLength(100) == Some([0x64]) && DecodeLength(0x64, 0) == Some(Length(100, 1))
    ensures EncodeLength(1723) == Some([0xC5, 0xFB]) && DecodeLength(0xC5, 0xFB) == Some(Length(1723, 2))
  {
  }

  /** ecryptfs_write_packet_length: the octets go to dest[at..]. */
  method WritePacketLength(dest: array<Byte>, at: nat, size: nat) returns (rc: int, written: nat)
    requires at + 2 <= dest.Length
    modifies dest
    ensures rc == if EncodeLength(size).Some? then 0 else -EINVAL
    ensures rc == 0 ==> written == |EncodeLength(size).value|
    ensures rc == 0 ==> dest[..] == old(dest[..at]) + EncodeLength(size).value + old(dest[at + written..])
    ensures rc != 0 ==> dest[..] == old(dest[..])
  {
    rc, written := 0, 0;
    if size < 192 {
      dest[at] := size;
      written := 1;
    } else if size < 65536 {
      dest[at] := ((size - 192) / 256 + 192) % 256;
      dest[at + 1] := (size - 192) % 256;
      written := 2;
    } else {
      rc := -EINVAL;
    }
  }

  /** ecryptfs_parse_packet_length on the octets at data[at..]. */
  method ParsePacketLength(data: array<Byte>, at: nat) returns (rc: int, size: nat, octets: nat)
    requires at + 2 <= data.Length
    ensures match DecodeLength(data[at], data[at + 1])
      case Some(d) => rc == 0 && size == d.size && octets == d.octets
      case None => rc == -EINVAL && size == 0 && octets == 0
  {
    rc, size, octets := 0, 0, 0;
    if data[at] < 192 {
      size, octets := data[at], 1;
    } else if data[at] < 224 {
      size := (data[at] as int - 192) * 256;
      size := size + data[at + 1] + 192;
      octets := 2;
    } else {
      rc := -EINVAL;
    }
  }
}
