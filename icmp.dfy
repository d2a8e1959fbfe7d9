/**
 * The ICMP echo codec of icmp.c: the per-family rule table, the encoder that
 * lays out the 8-byte echo header and payload (filling in the Internet
 * checksum for ICMPv4), and the parser that strips the IPv4 header, validates
 * length, checksum and type code, and extracts identifier, sequence number and
 * payload, each rejection with its own negative code.
 */
module Icmp {
  import opened Wire
  import opened InternetChecksum

  /** ICMP_HDRLEN: type, code, checksum, identifier, sequence number. */
  const HeaderLen: nat := 8

  /** The address family value that selects ICMPv4 (AF_INET on Linux). */
  const AF_INET: int := 2

  /** The rejection codes of icmp_parse. */
  const ErrTooShort: int := -1
  const ErrChecksum: int := -2
  const ErrEmpty: int := -3
  const ErrIpHeader: int := -4
  const ErrUnknownType: int := -5

  datatype Option<T> = None | Some(value: T)

  /** enum icmp_type: the family-independent message kind. */
  datatype EchoType = Request | Reply

  /** struct icmp_rule: the wire constants of one address family. */
  datatype Rule = Rule(requestType: Byte, replyType: Byte, useChecksum: bool, stripIpHeader: bool)

  /** icmpv4: Echo (8) and Echo Reply (0) of RFC 792; checksummed here; received with the IP header. */
  const IcmpV4: Rule := Rule(8, 0, true, true)

  /** icmpv6: Echo Request (128) and Echo Reply (129) of sections 4.1 and 4.2 of RFC 4443. */
  const IcmpV6: Rule := Rule(128, 129, false, false)

  /**
   * GET_RULE: the peer's address family selects the rule. Only AF_INET selects
   * ICMPv4; every other family, not just AF_INET6, falls through to ICMPv6.
   */
  function RuleFor(family: int): (rule: Rule)
    ensures rule.useChecksum <==> family == AF_INET
    ensures rule.stripIpHeader <==> family == AF_INET
    ensures rule.requestType == (if family == AF_INET then 8 else 128)
    ensures rule.replyType == (if family == AF_INET then 0 else 129)
    ensures rule.requestType != rule.replyType
  {
    if family == AF_INET then IcmpV4 else IcmpV6
  }

  /**
   * struct icmp_packet as the codec sees it: the peer's address family, the
   * message kind, identifier, sequence number and payload.
   */
  datatype Packet = Packet(family: int, kind: EchoType, id: U16, seqno: U16, payload: seq<Byte>)

  /** The wire type code of `kind` under `rule`. */
  function TypeCode(rule: Rule, kind: EchoType): Byte
  {
    if kind == Request then rule.requestType else rule.replyType
  }

  /** The 8-byte echo header: type, code 0, checksum, identifier, sequence number, all big-endian. */
  function HeaderBytes(code: Byte, csum: U16, id: U16, seqno: U16): seq<Byte>
  {
    [code, 0] + Write16(csum) + Write16(id) + Write16(seqno)
  }

  /**
   * The bytes icmp_encode produces: the header and payload in a zeroed buffer;
   * under a checksumming rule the checksum of that buffer (its checksum field
   * still zero) is then written into bytes 2 and 3.
   */
  function Encoded(pkt: Packet): seq<Byte>
  {
    var rule := RuleFor(pkt.family);
    var code := TypeCode(rule, pkt.kind);
    var zeroed := HeaderBytes(code, 0, pkt.id, pkt.seqno) + pkt.payload;
    if rule.useChecksum then HeaderBytes(code, Checksum(zeroed), pkt.id, pkt.seqno) + pkt.payload
    else zeroed
  }

  /** The result of icmp_parse: the fields it fills in, or the negative code it returns. */
  datatype ParseResult =
    | Parsed(kind: EchoType, id: U16, seqno: U16, payloadLen: nat, payload: Option<seq<Byte>>)
    | Rejected(code: int)

  /** (data[0] & 0x0f) << 2: the IPv4 header length in bytes (IHL field, section 3.1 of RFC 791). */
  function IpHeaderLen(first: Byte): (n: nat)
    ensures n % 4 == 0 && n <= 60
  {
    // masking the low nibble of a non-negative byte is its remainder by 16
    (first % 16) * 4
  }

  /** The payload as icmp_parse hands it over: absent (NULL) when empty. */
  function PayloadOption(payload: seq<Byte>): Option<seq<Byte>>
  {
    if |payload| > 0 then Some(payload) else None
  }

  /** The fields of an accepted echo message `icmp` (IP header already stripped). */
  function Fields(kind: EchoType, icmp: seq<Byte>): ParseResult
    requires |icmp| >= HeaderLen
  {
    Parsed(kind, Read16(icmp[4], icmp[5]), Read16(icmp[6], icmp[7]), |icmp| - HeaderLen,
           PayloadOption(icmp[HeaderLen..]))
  }

  /**
   * The checks icmp_parse makes once any IP header is stripped: the length,
   * the checksum (when the rule asks for it), then the type code.
   */
  function ParseMessage(rule: Rule, icmp: seq<Byte>): ParseResult
  {
    if |icmp| < HeaderLen then Rejected(ErrTooShort)
    else if rule.useChecksum && Checksum(icmp) != 0 then Rejected(ErrChecksum)
    else if icmp[0] == rule.requestType then Fields(Request, icmp)
    else if icmp[0] == rule.replyType then Fields(Reply, icmp)
    else Rejected(ErrUnknownType)
  }

  /** icmp_parse over the `len` received bytes `data`, for a peer of address family `family`. */
  function ParseBytes(family: int, data: seq<Byte>): ParseResult
  {
    var rule := RuleFor(family);
    if rule.stripIpHeader && |data| == 0 then Rejected(ErrEmpty)
    else
      var hdrlen := if rule.stripIpHeader then IpHeaderLen(data[0]) else 0;
      if |data| < hdrlen then Rejected(ErrIpHeader)
      else ParseMessage(rule, data[hdrlen..])
  }

  /** icmp_type_str: the direction label icmp_dump prints for a packet kind. */
  function TypeLabel(kind: EchoType): (text: string)
    ensures text == "Reply from" <==> kind == Reply
    ensures text == "Request to" <==> kind == Request
  {
    assert "Reply from"[2] != "Request to"[2];
    match kind
    case Reply => "Reply from"
    case Request => "Request to"
  }

  /**
   * icmp_encode: allocates a zeroed buffer of 8 + payload_len bytes, writes the
   * type code, identifier, sequence number and payload, and for ICMPv4 the
   * checksum of the buffer.
   */
  method Encode(pkt: Packet) returns (data: array<Byte>, len: nat)
    ensures fresh(data) && len == data.Length == HeaderLen + |pkt.payload|
    ensures data[..] == Encoded(pkt)
  {
    var rule := RuleFor(pkt.family);
    len := HeaderLen + |pkt.payload|;
    data := new Byte[len](_ => 0);
    if pkt.kind == Request {
      data[0] := rule.requestType;
    } else {
      data[0] := rule.replyType;
    }
    Write16At(data, 4, pkt.id);
    Write16At(data, 6, pkt.seqno);
    ghost var code := TypeCode(rule, pkt.kind);
    ghost var header := HeaderBytes(code, 0, pkt.id, pkt.seqno);
    assert data[..HeaderLen] == header;
    if |pkt.payload| > 0 {
      CopyInto(data, HeaderLen, pkt.payload);
    }
    assert data[..] == header + pkt.payload;
    if rule.useChecksum {
      var csum := ChecksumOf(data, 0, len);
      assert data[0..len] == header + pkt.payload;
      Write16At(data, 2, csum);
      SetChecksumField(code, csum, pkt.id, pkt.seqno, pkt.payload);
    }
  }

  /** Writing `csum` big-endian at offset 2 of a zero-checksum encoding fills in its checksum field. */
  lemma SetChecksumField(code: Byte, csum: U16, id: U16, seqno: U16, payload: seq<Byte>)
    ensures (HeaderBytes(code, 0, id, seqno) + payload)[2 := Write16(csum)[0]][3 := Write16(csum)[1]]
         == HeaderBytes(code, csum, id, seqno) + payload
  {
  }

  /** memcpy(&dst[at], src, |src|): overwrites the bytes from `at` on with `src`. */
  method CopyInto(dst: array<Byte>, at: nat, src: seq<Byte>)
    requires at + |src| <= dst.Length
    modifies dst
    ensures dst[..] == old(dst[..at]) + src + old(dst[at + |src|..])
  {
    var k := 0;
    while k < |src|
      invariant 0 <= k <= |src|
      invariant dst[..at] == old(dst[..at])
      invariant dst[at..at + k] == src[..k]
      invariant dst[at + |src|..] == old(dst[at + |src|..])
    {
      dst[at + k] := src[k];
      k := k + 1;
    }
    assert dst[..] == dst[..at] + dst[at..at + k] + dst[at + |src|..];
  }

  /** malloc(n) then memcpy from &src[from]: a fresh buffer holding those n bytes. */
  method CopyOut(src: array<Byte>, from: nat, n: nat) returns (buf: array<Byte>)
    requires from + n <= src.Length
    ensures fresh(buf)
    ensures buf[..] == src[from..from + n]
  {
    buf := new Byte[n];
    var k := 0;
    while k < n
      invariant 0 <= k <= n
      invariant buf[..k] == src[from..from + k]
    {
      buf[k] := src[from + k];
      k := k + 1;
    }
    assert buf[..] == buf[..k];
  }

  /**
   * icmp_parse: strips the IPv4 header, then checks the length, the checksum
   * (ICMPv4 only) and the type code, returning on the first failure; on success
   * it reads identifier and sequence number and copies the payload into a
   * fresh buffer.
   */
  method Parse(family: int, data: array<Byte>, len: nat) returns (r: ParseResult)
    requires len <= data.Length
    ensures r == ParseBytes(family, data[..len])
  {
    var rule := RuleFor(family);
    var off, n := 0, len;
    if rule.stripIpHeader {
      if n == 0 {
        return Rejected(ErrEmpty);
      }
      var hdrlen := IpHeaderLen(data[0]);
      if n < hdrlen {
        return Rejected(ErrIpHeader);
      }
      off, n := hdrlen, n - hdrlen;
    }
    assert data[..len][off..] == data[off..off + n];
    r := ParseStripped(rule, data, off, n);
  }

  /** The part of icmp_parse after the IP header: `data` and `len` now address the echo message. */
  method ParseStripped(rule: Rule, data: array<Byte>, off: nat, n: nat) returns (r: ParseResult)
    requires off + n <= data.Length
    ensures r == ParseMessage(rule, data[off..off + n])
  {
    ghost var icmp := data[off..off + n];
    if n < HeaderLen {
      return Rejected(ErrTooShort);
    }
    if rule.useChecksum {
      var csum := ChecksumOf(data, off, n);
      if csum != 0 {
        return Rejected(ErrChecksum);
      }
    }
    assert data[off] == icmp[0];
    var kind;
    if rule.requestType == data[off] {
      kind := Request;
    } else if rule.replyType == data[off] {
      kind := Reply;
    } else {
      return Rejected(ErrUnknownType);
    }
    var id := Read16(data[off + 4], data[off + 5]);
    var seqno := Read16(data[off + 6], data[off + 7]);
    var payloadLen := n - HeaderLen;
    var payload := None;
    if payloadLen > 0 {
      var buf := CopyOut(data, off + HeaderLen, payloadLen);
      payload := Some(buf[..]);
    }
    assert icmp[HeaderLen..] == data[off + HeaderLen..off + n];
    r := Parsed(kind, id, seqno, payloadLen, payload);
  }

  /** A two-byte buffer sums to its one big-endian word. */
  lemma WordSumPair(hi: Byte, lo: Byte)
    ensures WordSum([hi, lo]) == Read16(hi, lo)
  {
    assert [hi, lo][..0] == [];
  }

  /** The word sum of an echo header: the type code as high byte plus the three 16-bit fields. */
  lemma HeaderWordSum(code: Byte, csum: U16, id: U16, seqno: U16)
    ensures WordSum(HeaderBytes(code, csum, id, seqno)) == (code as int) * 0x100 + csum + id + seqno
  {
    var p0, p1, p2, p3 := [code, 0], Write16(csum), Write16(id), Write16(seqno);
    assert HeaderBytes(code, csum, id, seqno) == p0 + p1 + p2 + p3;
    WordSumAppend(p0 + p1 + p2, p3);
    WordSumAppend(p0 + p1, p2);
    WordSumAppend(p0, p1);
    WordSumPair(code, 0);
    WordSumPair(p1[0], p1[1]);
    WordSumPair(p2[0], p2[1]);
    WordSumPair(p3[0], p3[1]);
    assert p1 == [p1[0], p1[1]] && p2 == [p2[0], p2[1]] && p3 == [p3[0], p3[1]];
    Read16Write16(csum);
    Read16Write16(id);
    Read16Write16(seqno);
  }

  /**
   * The layout icmp_encode produces: 8 + payload_len bytes, the rule's type
   * code in byte 0, a zero code byte, identifier and sequence number
   * big-endian at 4 and 6, the payload from byte 8 on, and in bytes 2-3 the
   * checksum of the buffer with those two bytes zero (ICMPv4) or zero (any
   * other family).
   */
  lemma EncodedLayout(pkt: Packet)
    ensures var data := Encoded(pkt);
      && |data| == HeaderLen + |pkt.payload|
      && data[0] == (if pkt.kind == Request then RuleFor(pkt.family).requestType
                     else RuleFor(pkt.family).replyType)
      && data[1] == 0
      && Read16(data[4], data[5]) == pkt.id
      && Read16(data[6], data[7]) == pkt.seqno
      && data[HeaderLen..] == pkt.payload
      && (pkt.family == AF_INET ==>
            Read16(data[2], data[3]) == Checksum(data[..2] + [0, 0] + data[4..]))
      && (pkt.family != AF_INET ==> data[2] == 0 && data[3] == 0)
  {
    var data := Encoded(pkt);
    var rule := RuleFor(pkt.family);
    var code := TypeCode(rule, pkt.kind);
    Read16Write16(pkt.id);
    Read16Write16(pkt.seqno);
    if pkt.family == AF_INET {
      var zeroed := HeaderBytes(code, 0, pkt.id, pkt.seqno) + pkt.payload;
      assert data[..2] + [0, 0] + data[4..] == zeroed;
      Read16Write16(Checksum(zeroed));
    }
  }

  /**
   * For ICMPv4, the checksum of a finished encoding is 0, so icmp_parse never
   * rejects it with ErrChecksum. This holds for every length: even when the
   * 32-bit accumulator wraps, the wrapped sum plus the checksum field cannot
   * wrap again.
   */
  lemma EncodedChecksumIsZero(pkt: Packet)
    requires pkt.family == AF_INET
    ensures Checksum(Encoded(pkt)) == 0
  {
    var code := TypeCode(RuleFor(pkt.family), pkt.kind);
    var zeroed := HeaderBytes(code, 0, pkt.id, pkt.seqno) + pkt.payload;
    var c := Checksum(zeroed);
    var final := HeaderBytes(code, c, pkt.id, pkt.seqno) + pkt.payload;
    assert Encoded(pkt) == final;
    WordSumAppend(HeaderBytes(code, 0, pkt.id, pkt.seqno), pkt.payload);
    WordSumAppend(HeaderBytes(code, c, pkt.id, pkt.seqno), pkt.payload);
    HeaderWordSum(code, 0, pkt.id, pkt.seqno);
    HeaderWordSum(code, c, pkt.id, pkt.seqno);
    assert WordSum(final) == WordSum(zeroed) + c;
    SelfInclusion(WordSum(zeroed));
  }

  /** The fields icmp_parse extracts from an encoding, whatever the rule. */
  lemma FieldsOfEncoded(pkt: Packet)
    ensures Fields(pkt.kind, Encoded(pkt))
         == Parsed(pkt.kind, pkt.id, pkt.seqno, |pkt.payload|, PayloadOption(pkt.payload))
  {
    EncodedLayout(pkt);
  }

  /** ICMPv6 round trip: parsing an encoding gives back kind, identifier, sequence number and payload. */
  lemma ParseEncodedV6(pkt: Packet)
    requires pkt.family != AF_INET
    ensures ParseBytes(pkt.family, Encoded(pkt))
         == Parsed(pkt.kind, pkt.id, pkt.seqno, |pkt.payload|, PayloadOption(pkt.payload))
  {
    var data := Encoded(pkt);
    EncodedLayout(pkt);
    assert data[0..] == data;
    FieldsOfEncoded(pkt);
  }

  /**
   * ICMPv4 round trip: an encoding received behind an IP header whose IHL
   * nibble times 4 is the header's length parses back to the packet's kind,
   * identifier, sequence number and payload.
   */
  lemma ParseEncodedV4(pkt: Packet, ipHeader: seq<Byte>)
    requires pkt.family == AF_INET
    requires |ipHeader| > 0 && IpHeaderLen(ipHeader[0]) == |ipHeader|
    ensures ParseBytes(AF_INET, ipHeader + Encoded(pkt))
         == Parsed(pkt.kind, pkt.id, pkt.seqno, |pkt.payload|, PayloadOption(pkt.payload))
  {
    var data := ipHeader + Encoded(pkt);
    assert data[0] == ipHeader[0];
    assert data[|ipHeader|..] == Encoded(pkt);
    EncodedLayout(pkt);
    EncodedChecksumIsZero(pkt);
    FieldsOfEncoded(pkt);
  }

  /**
   * ICMPv4 error detection: changing any one byte of an encoding, in
   * particular flipping one of its bits, makes icmp_parse reject it with
   * ErrChecksum, whatever IP header it arrives behind.
   */
  lemma CorruptedEncodingRejectedV4(pkt: Packet, ipHeader: seq<Byte>, j: nat, v: Byte)
    requires pkt.family == AF_INET
    requires |ipHeader| > 0 && IpHeaderLen(ipHeader[0]) == |ipHeader|
    requires HeaderLen + |pkt.payload| <= MaxUnwrappedLen
    requires j < HeaderLen + |pkt.payload| && v != Encoded(pkt)[j]
    ensures ParseBytes(AF_INET, ipHeader + Encoded(pkt)[j := v]) == Rejected(ErrChecksum)
  {
    var corrupted := Encoded(pkt)[j := v];
    var data := ipHeader + corrupted;
    EncodedLayout(pkt);
    EncodedChecksumIsZero(pkt);
    ChecksumDetectsByteChange(Encoded(pkt), j, v);
    assert data[0] == ipHeader[0];
    assert data[|ipHeader|..] == corrupted;
  }

  /**
   * The converse of the ICMPv6 round trip: a buffer the parser accepts, whose
   * code byte and checksum field are zero as the encoder writes them, is
   * exactly the encoding of the packet parsed from it.
   */
  lemma EncodeParsedV6(family: int, data: seq<Byte>)
    requires family != AF_INET
    requires ParseBytes(family, data).Parsed?
    requires data[1] == 0 && data[2] == 0 && data[3] == 0
    ensures var r := ParseBytes(family, data);
      Encoded(Packet(family, r.kind, r.id, r.seqno, data[HeaderLen..])) == data
  {
    var r := ParseBytes(family, data);
    assert data[0..] == data;
    var pkt := Packet(family, r.kind, r.id, r.seqno, data[HeaderLen..]);
    Write16Read16(data[4], data[5]);
    Write16Read16(data[6], data[7]);
    assert data == data[..HeaderLen] + data[HeaderLen..];
  }

  /**
   * The rejections of icmp_parse, in the order it checks them: each code is
   * returned exactly when its own check fails and every earlier check passed.
   */
  lemma ParseRejections(family: int, data: seq<Byte>)
    ensures var r := ParseBytes(family, data);
      var v4 := family == AF_INET;
      var hdrlen := if v4 && |data| > 0 then IpHeaderLen(data[0]) else 0;
      var stripped := hdrlen <= |data| && !(v4 && |data| == 0);
      var rule := RuleFor(family);
      && (r == Rejected(ErrEmpty) <==> v4 && |data| == 0)
      && (r == Rejected(ErrIpHeader) <==> v4 && |data| > 0 && |data| < hdrlen)
      && (r == Rejected(ErrTooShort) <==> stripped && |data| - hdrlen < HeaderLen)
      && (r == Rejected(ErrChecksum) <==>
            stripped && |data| - hdrlen >= HeaderLen && v4 && Checksum(data[hdrlen..]) != 0)
      && (r == Rejected(ErrUnknownType) <==>
            stripped && |data| - hdrlen >= HeaderLen && !(v4 && Checksum(data[hdrlen..]) != 0)
            && data[hdrlen] != rule.requestType && data[hdrlen] != rule.replyType)
      && (r.Rejected? ==> r.code in {ErrTooShort, ErrChecksum, ErrEmpty, ErrIpHeader, ErrUnknownType})
  {
    if |data| > 0 {
      var hdrlen := if family == AF_INET then IpHeaderLen(data[0]) else 0;
      if hdrlen <= |data| && |data| - hdrlen >= HeaderLen {
        assert data[hdrlen..][0] == data[hdrlen];
      }
    }
  }

  /**
   * What a successful icmp_parse fills in: the kind named by the type code at
   * the start of the stripped message, identifier and sequence number read
   * big-endian at offsets 4 and 6, payload_len = len - 8, and the payload from
   * offset 8, absent exactly when it is empty.
   */
  lemma ParseSuccess(family: int, data: seq<Byte>)
    requires ParseBytes(family, data).Parsed?
    ensures var r := ParseBytes(family, data);
      var hdrlen := if family == AF_INET then IpHeaderLen(data[0]) else 0;
      var icmp := data[hdrlen..];
      && |icmp| >= HeaderLen
      && (family == AF_INET ==> Checksum(icmp) == 0)
      && (r.kind == Request <==> icmp[0] == RuleFor(family).requestType)
      && (r.kind == Reply <==> icmp[0] == RuleFor(family).replyType)
      && r.id == Read16(icmp[4], icmp[5])
      && r.seqno == Read16(icmp[6], icmp[7])
      && r.payloadLen == |icmp| - HeaderLen
      && (r.payload.None? <==> r.payloadLen == 0)
      && (r.payload.Some? ==> r.payload.value == icmp[HeaderLen..])
  {
  }
}
