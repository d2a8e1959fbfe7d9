# pingfs: ICMP echo codec and host bookkeeping

A Dafny model of two parts of pingfs, a file system that keeps its data in ICMP
echo requests and replies that are in flight.

- **The ICMP echo codec of `icmp.c`.**
  - A per-family rule table: ICMPv4 types 8/0 with the Internet checksum, and
    ICMPv6 types 128/129 without it.
  - The Internet checksum of RFC 1071.
  - Big-endian `read16`/`write16`.
  - `icmp_encode`: builds the 8-byte echo header followed by the payload.
  - `icmp_parse`: strips the IPv4 header, checks the length, the checksum and
    the type code, and extracts identifier, sequence number and payload. Each
    failure has its own negative code.
- **The host bookkeeping of `host.c`.**
  - The singly linked host list that `host_create` builds from resolver results.
  - The per-host evaluation records of `host_evaluate` and how `eval_reply`
    matches a reply against them.
  - The filter and unlink passes that drop every host that missed a reply.
  - The `diff_add` latency counters.
  - The cyclic `host_use`/`host_get_next` cursor.

Files:

- `wire.dfy` (module `Wire`): octets, 16-bit values, and `read16`/`write16`.
- `checksum.dfy` (module `InternetChecksum`):
  - `Checksum` states `checksum()` exactly, including its 32-bit accumulator.
  - `OnesSum` is the reference one's complement sum.
  - `ChecksumOf` is the accumulation loop over an array, proved equal to `Checksum`.
- `icmp.dfy` (module `Icmp`):
  - The rule table and the two codec methods.
  - `Encode` fills a zeroed array in place.
  - `Parse` walks an array and returns a `ParseResult` that holds either the
    parsed fields or the rejection code.
  - Pure functions (`Encoded`, `ParseBytes`) specify the two methods. The
    round trips, the layout and the order of rejections are lemmas about them.
- `host.dfy` (module `Hosts`):
  - `Host` is a class whose `next` and `sockaddrLen` fields the methods update
    in place.
  - A ghost sequence of nodes is tied to the pointer structure by the recursive
    predicate `Seg`/`IsList`.
  - Evaluation records are an array of `EvalHost` values.
  - The static latency counters and the static cursor are the classes `Latency`
    and `HostCursor`.

Two things are parameters rather than computed:

- The clock readings, `sendTime` and `recvTime`, are plain values.
- Socket addresses are opaque byte strings that are only compared for equality.

## Model

| member | source | states |
|---|---|---|
| Wire.Read16 | icmp.c:61-64 | read16: the big-endian value whose high byte is the first byte; Read16Write16 and Write16Read16 show it inverts write16 |
| Wire.Write16 | icmp.c:66-70 | write16 stores two bytes, high byte first, that recombine to the value |
| Wire.Read16Write16 | icmp.c:61-70 | read16 of what write16 stored gives the original 16-bit value |
| Wire.Write16Read16 | icmp.c:61-70 | write16 of what read16 read gives back the original two bytes |
| Wire.Write16At | icmp.c:66-70 | storing at an offset changes exactly bytes off and off + 1 of the buffer, to the big-endian bytes of the value |
| InternetChecksum.WordSum | icmp.c:51-55 | the unbounded sum of the big-endian words that the loop accumulates, an odd last byte being the high byte of a word with low byte 0 |
| InternetChecksum.FoldComplement | icmp.c:56-58 | the two end-around carries and the uint16_t complement that end checksum() |
| InternetChecksum.Checksum | icmp.c:47-59 | checksum() with its accumulator wrapping modulo 2^32; ChecksumOf is proved equal to it, and ChecksumIsOnesComplement relates it to the reference one's complement sum |
| InternetChecksum.FoldIsOnesSum | icmp.c:56-58 | the two end-around carries and the complement of checksum() yield 0xFFFF minus the one's complement sum of an unwrapped accumulator |
| InternetChecksum.WordSumBound | icmp.c:51-55 | n bytes give at most (n + 1) / 2 words of at most 0xFFFF each |
| InternetChecksum.WordSumFits | icmp.c:47-55 | a buffer of at most 131074 bytes cannot make the 32-bit accumulator wrap |
| InternetChecksum.ChecksumIsOnesComplement | icmp.c:47-59 | for every buffer within that bound, checksum() is the one's complement of the one's complement sum of its big-endian words (section 1 of RFC 1071) |
| InternetChecksum.WordSumAppend | icmp.c:51-55 | the words of a buffer starting at an even offset add independently of what precedes them |
| InternetChecksum.OddLengthPadsWithZero | icmp.c:52-53 | an odd-length buffer sums and checksums like the same buffer padded with one zero byte |
| InternetChecksum.ComplementCancels | icmp.c:94-96 | adding the complement of a one's complement sum to that sum yields one's complement -0 (0xFFFF), the self-inclusion rule of RFC 1071 |
| InternetChecksum.ComplementFits | icmp.c:54-58 | a wrapped 32-bit accumulator plus the complement of its one's complement sum never exceeds 2^32 - 1 |
| InternetChecksum.SelfInclusion | icmp.c:47-59 | adding a buffer's checksum as one more word makes the checksum 0 for every word sum, however often the accumulator wraps |
| InternetChecksum.WordSumUpdate | icmp.c:51-55 | changing byte j of a buffer moves its word sum by the change, times 0x100 when j is even (the high byte of its word) and times 1 when j is odd |
| InternetChecksum.WordSumUpdateFront | icmp.c:51-54 | the same for a byte of the first word, from which WordSumUpdate follows by splitting at an even offset |
| InternetChecksum.ShiftedSumIsNotNegativeZero | icmp.c:56-58 | a word sum whose one's complement sum is -0 (0xFFFF) loses that property when it moves by any nonzero amount of magnitude below 0xFFFF |
| InternetChecksum.ChecksumDetectsByteChange | icmp.c:47-59 | in a buffer of at most 131074 bytes whose checksum is 0, changing any single byte (in particular flipping any one bit) makes the checksum nonzero |
| InternetChecksum.WordSumStep | icmp.c:51-54 | one loop step adds data[i] << 8, or-ed with data[i + 1] when that byte exists |
| InternetChecksum.AccumulateStep | icmp.c:51-55 | after each step the 32-bit accumulator is the word sum of the bytes consumed so far, modulo 2^32 |
| InternetChecksum.ChecksumOf | icmp.c:47-59 | the accumulation loop over len bytes starting at off returns exactly the checksum of those bytes |
| Icmp.RuleFor | icmp.c:25-45 | AF_INET selects types 8/0 with checksum and IP-header stripping; every other family selects 128/129 with neither; request and reply codes differ |
| Icmp.IpHeaderLen | icmp.c:123 | the IHL nibble times 4 is a multiple of 4 and at most 60 |
| Icmp.TypeLabel | icmp.c:160-165 | "Reply from" exactly for replies and "Request to" exactly for requests |
| Icmp.TypeCode | icmp.c:83-87 | the byte 0 icmp_encode writes: the rule's request code for a request, its reply code otherwise |
| Icmp.HeaderBytes | icmp.c:83-95 | the 8-byte echo header: type, code 0, then checksum, id and seqno, each written by write16 |
| Icmp.Encoded | icmp.c:72-100 | the bytes icmp_encode produces; Encode is proved to produce them, and EncodedLayout and the round-trip lemmas state their layout |
| Icmp.Encode | icmp.c:72-100 | the buffer has length 8 + payload_len and holds exactly the specified encoding |
| Icmp.SetChecksumField | icmp.c:94-96 | writing the checksum at offset 2 of the zero-checksum encoding fills in its checksum field and nothing else |
| Icmp.CopyInto | icmp.c:91-92 | memcpy into the buffer replaces exactly the bytes from the offset on by the payload |
| Icmp.CopyOut | icmp.c:142-144 | the freshly allocated payload buffer holds exactly payload_len bytes from offset 8 of the message |
| Icmp.PayloadOption | icmp.c:142-147 | the payload pointer icmp_parse sets: a copy of the bytes when there are any, NULL otherwise |
| Icmp.Fields | icmp.c:139-147 | the fields a successful icmp_parse fills in from the stripped message |
| Icmp.ParseMessage | icmp.c:128-148 | icmp_parse after the IP header: length check (-1), checksum check for ICMPv4 (-2), type check (-5), then the fields |
| Icmp.ParseBytes | icmp.c:117-149 | icmp_parse on the received bytes: the empty (-3) and IP header (-4) checks for ICMPv4, then ParseMessage on what follows the header; ParseRejections and ParseSuccess state its outcomes |
| Icmp.Parse | icmp.c:117-149 | the parser returns exactly the specified result for the len received bytes, including every rejection code |
| Icmp.ParseStripped | icmp.c:128-148 | after the IP header, the checks and field extraction return exactly the specified result for the message |
| Icmp.EncodedLayout | icmp.c:78-98 | an encoding has length 8 + payload_len; byte 0 is the rule's request or reply code; byte 1 is 0; id and seqno are big-endian at 4 and 6; the payload starts at 8; bytes 2-3 hold the checksum of the buffer with a zero field (v4) or 0 (v6) |
| Icmp.EncodedChecksumIsZero | icmp.c:94-96 | for ICMPv4 the checksum of a finished encoding of any length of the unbounded model is 0, so the parser's checksum check at icmp.c:129-131 accepts it |
| Icmp.FieldsOfEncoded | icmp.c:139-147 | the fields extracted from an encoding are the packet's kind, id, seqno, payload length and payload |
| Icmp.ParseEncodedV6 | icmp.c:72-149 | ICMPv6 round trip: parsing an encoding gives back the packet's kind, id, seqno and payload |
| Icmp.ParseEncodedV4 | icmp.c:72-149 | ICMPv4 round trip, for any payload length of the unbounded model: an encoding behind an IP header whose IHL nibble times 4 is the header length parses back to the packet |
| Icmp.CorruptedEncodingRejectedV4 | icmp.c:94-131 | ICMPv4 error detection: an encoding of at most 131074 bytes, with any one byte changed (in particular one bit flipped), behind an IP header whose IHL matches its length, is rejected with the checksum error -2 |
| Icmp.EncodeParsedV6 | icmp.c:72-149 | the converse for ICMPv6: an accepted buffer with zero code and checksum bytes is exactly the encoding of the packet parsed from it |
| Icmp.ParseRejections | icmp.c:117-138 | -3, -4, -1, -2 and -5 are each returned exactly when their own check fails and every earlier check passed; no other negative code occurs |
| Icmp.ParseSuccess | icmp.c:139-148 | on success: the kind names the type byte; id and seqno are read16 at offsets 4 and 6; payload_len is len - 8; the payload is the bytes from 8 and is absent exactly when empty; ICMPv4 messages have checksum 0 |
| Hosts.Seg | host.c:126-130 | following next from the head visits the listed distinct hosts in order and then arrives at the given end; SegJoin, SegSplit and SegNext are its lemmas |
| Hosts.IsList | host.c:266-282 | the singly linked list from a head, ending in NULL, holds exactly the listed hosts in order |
| Hosts.Host.constructor | host.c:120-125 | a new host holds the answer's address and its length, and links to nothing |
| Hosts.Contribution | host.c:115-133 | one lookup's hosts: its answers' addresses when gai_error is 0, none otherwise |
| Hosts.Resolved | host.c:114-135 | the addresses of the whole host list: every lookup's contribution, in list order; Create is proved to build it |
| Hosts.Addresses | host.c:116-133 | the addresses of an ar_result chain, one per answer, in chain order |
| Hosts.ResolvedAppend | host.c:114-135 | the addresses of a lookup list are those of its first part followed by those of the rest |
| Hosts.ResolvedSkipsFailed | host.c:115 | a lookup with a nonzero gai_error contributes no host, wherever it stands |
| Hosts.Append | host.c:118-130 | a fresh host for the address becomes the head of an empty list, or is linked after the last host; the list is the old list plus that host |
| Hosts.AppendAll | host.c:116-133 | the inner loop appends one fresh host per answer, in order, each with sockaddr_len equal to its address length, and leaves the last pointer on the list's last host |
| Hosts.Create | host.c:108-138 | the list host_create returns holds fresh hosts whose addresses are, in order, the answers of every successful lookup, each with sockaddr_len equal to its address length |
| Hosts.Matches | host.c:167-172 | a record accepts a reply exactly when address length and bytes, payload length and bytes, id and the awaited seqno all agree |
| Hosts.FirstMatch | host.c:165-172 | the first record that accepts the reply: it matches, and no record before it does |
| Hosts.Accepted | host.c:175-179 | an accepting record gets num_rx + 1, done set, and cur_seqno + 1 wrapped to 16 bits, and nothing else changes |
| Hosts.ElapsedUs | host.c:143-147 | diff_add's elapsed microseconds as a uint64_t |
| Hosts.ElapsedIsMicrosDifference | host.c:143-147 | for a later reading, less than 2^64 microseconds on, the elapsed microseconds are exactly the difference of the two readings |
| Hosts.Latency.constructor | host.c:140-141 | the static counters start at zero |
| Hosts.Latency.DiffAdd | host.c:143-151 | the sum grows by the elapsed microseconds, wrapping at 2^64, and the count by one, wrapping at 2^32 |
| Hosts.EvalReply | host.c:158-184 | only the first matching record is updated, as Accepted, and the latency counters take its round-trip time; with no match, every record and both counters stay unchanged |
| Hosts.MakeEvalPayload | host.c:201-203 | byte k of the evaluation payload is k & 0xff |
| Hosts.InitEval | host.c:205-215 | record i points to the list's i-th host, has id i and cur_seqno 2 * i (both as uint16_t), shares the payload, and is otherwise zero |
| Hosts.Good | host.c:256-262 | a host is good exactly when num_tx != 0 and num_tx == num_rx |
| Hosts.CountGood | host.c:252-264 | the number of good records, at most the number of records |
| Hosts.GoodNodes | host.c:252-282 | the list's hosts with good records, in list order, all drawn from the list |
| Hosts.MarkFailed | host.c:252-264 | good_hosts counts the records with num_tx != 0 and num_tx == num_rx; every other record's host gets sockaddr_len 0; the good ones keep theirs |
| Hosts.Unmarked | host.c:266-282 | the hosts left after unlinking are hosts of the original list |
| Hosts.Drop | host.c:271-276 | removing a marked host moves the head past it, or makes prev skip it; the list is the kept hosts followed by the rest |
| Hosts.UnlinkStep | host.c:269-281 | one iteration: next is the following host; a marked host is removed, an unmarked one becomes prev and is kept |
| Hosts.Unlink | host.c:266-282 | the list is exactly the unmarked hosts in their original order, and *hosts is the first of them or NULL |
| Hosts.GoodNodesCount | host.c:252-264 | there are as many good hosts in the list as good records |
| Hosts.UnmarkedAreGood | host.c:252-282 | once exactly the hosts of bad records are marked, the unmarked hosts are the good ones |
| Hosts.Prune | host.c:252-282 | the list left by the filter and unlink passes is exactly the hosts that answered every ping, in order; *hosts is its first host or NULL; good_hosts is its length; good hosts keep their sockaddr_len and the others end with 0 |
| Hosts.HostCursor.constructor | host.c:294-295 | both static pointers start null |
| Hosts.HostCursor.Use | host.c:297-300 | host_use sets hosts_start and leaves hosts_cur alone; the cursor is consistent when hosts_cur was null |
| Hosts.HostCursor.GetNext | host.c:304-313 | hands out the host at the current position and advances to the next one, back to hosts_start after the last: a cyclic enumeration in list order |

## Left out

- `icmp_send`: it encodes and then calls `sendto`, which is I/O.
- `icmp_dump` and `get_in_addr`: they format addresses with `inet_ntop` and print them.
- The ICMPv6 checksum: the kernel fills it in over a pseudo-header, so the ICMPv6 rule leaves bytes 2-3 zero.
- Allocation failures of `calloc`/`malloc` in `icmp_encode`, `icmp_parse`, `host_create` and `host_evaluate`.
  - Every allocation succeeds in the model.
  - `free` of unlinked hosts is not modelled.
- `host_make_resolvlist` and `host_free_resolvlist`: file reading and freeing.
- The host list arrives as already-resolved `Lookup` values, one per `gaicb`.
- Parts of `host_evaluate` that are I/O or timing:
  - the five send rounds with `net_send`/`net_recv` and their timeout;
  - `clock_gettime`, `net_inc_rx`;
  - the printed average RTT, which is floating point.
- Because the send rounds are left out, `num_tx`/`num_rx` are inputs to the filter pass. Their `int` overflow is not modelled.
- `net.c` and `pingfs.c`: raw sockets, threads and the FUSE glue.
- `host.h` and `chunk.h` are not part of this model.
  - `struct host` is taken to hold `sockaddr`, `sockaddr_len` and `next`.
  - `CHUNK_SIZE` is the `size` parameter of `MakeEvalPayload`.
- `diff_add` overflow: the `time_t` product `(end - start) * 1000000` is unbounded in the model. Four steps wrap: the conversion to `uint64_t`, the two `uint64_t` updates of `us`, and the counters (`latency_sum_us` at 2^64, `latency_count` at 2^32).
- Hosts.Matches: a record whose host is NULL matches nothing, where `eval_reply` would dereference it. `InitEval` never leaves a NULL host for a list of at least `length` hosts.
- Hosts.InitEval: requires the list to hold at least `length` hosts. With fewer, `host_evaluate` dereferences NULL.
- Hosts.Prune: requires every host to start with a positive `sockaddr_len`, as `host_create` leaves them. A host whose address length is already 0 would be unlinked although its record is good.
- Hosts.HostCursor.Use: establishes the cursor's consistency only when `hosts_cur` is still NULL. `host_use` does not reset `hosts_cur`, so after a second `host_use` the cursor may still point into the previous list.
- InternetChecksum.ChecksumIsOnesComplement: holds only up to 131074 bytes. Beyond that the 32-bit accumulator can wrap. `Checksum` itself models the wrap for every length.
- Icmp.TypeLabel: has no counterpart for the "Other" branch of `icmp_type_str`. `enum icmp_type` has only the two values that `EchoType` models, so that branch cannot be reached.
- Icmp.Encode: lengths are unbounded naturals. In icmp_encode (icmp.c:76-79) `pktlen` is an `int` computed from the `uint32_t` `payload_len` of icmp.h:40. Payloads of 2^31 - 8 bytes or more overflow `pktlen`: from 2^31 - 8 the negative size makes `calloc` fail, and from 2^32 - 8 the sum wraps to a small size that `memcpy` overruns. The model encodes every payload, so EncodedLayout, EncodedChecksumIsZero and ParseEncodedV4 say nothing about the C code for such payloads; host.c sends payloads of CHUNK_SIZE bytes through net_send (host.c:212, host.c:229-230), which builds the packet with the length it is given (net.c:107-113) and encodes it through icmp_send.
- Icmp.CorruptedEncodingRejectedV4: needs the encoding to be at most 131074 bytes, like ChecksumDetectsByteChange. Beyond that the 32-bit accumulator can wrap, and the model does not state whether a single-byte change is still always caught.
- Icmp.ParseEncodedV4: the reverse direction, encoding what was parsed, is not claimed for ICMPv4. One's complement has two zeros (0x0000 and 0xFFFF), so an accepted buffer may carry a checksum field the encoder would not write.
- Icmp.Parse: `len` is a natural number. The C `int` is never negative at the one call site, which passes the length `recvfrom` returned after checking it.
