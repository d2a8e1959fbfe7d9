/**
 * The host bookkeeping of host.c: the linked list of resolved hosts that
 * host_create builds, the per-host evaluation records host_evaluate keeps
 * while pinging every host, the reply matching of eval_reply, the pruning of
 * hosts that missed a reply, the latency counters of diff_add, and the cyclic
 * cursor host_get_next walks.
 *
 * Socket addresses are opaque byte strings compared for equality; the clocks
 * are parameters; net_send, net_recv and the send rounds are not modelled.
 */
module Hosts {
  import opened Wire

  /** struct host: one resolved address and the link to the next host of the list. */
  class Host {
    /** The socket address bytes copied from the resolver's answer. */
    const sockaddr: seq<Byte>
    /** sockaddr_len: the address length; host_evaluate sets it to 0 to mark a host for deletion. */
    var sockaddrLen: int
    var next: Host?

    /** calloc, then memcpy of the address and its length. */
    constructor (addr: seq<Byte>)
      ensures sockaddr == addr && sockaddrLen == |addr| && next == null
    {
      sockaddr := addr;
      sockaddrLen := |addr|;
      next := null;
    }
  }

  /**
   * Following `next` from `head` visits the distinct `nodes` in order and
   * then arrives at `end`.
   */
  ghost predicate Seg(head: Host?, nodes: seq<Host>, end: Host?)
    reads (set x | x in nodes)`next
    decreases |nodes|
  {
    if nodes == [] then head == end
    else head == nodes[0] && nodes[0] !in nodes[1..] && Seg(nodes[0].next, nodes[1..], end)
  }

  /** `head` starts a null-terminated list of exactly the hosts `nodes`, in order. */
  ghost predicate IsList(head: Host?, nodes: seq<Host>)
    reads (set x | x in nodes)`next
  {
    Seg(head, nodes, null)
  }

  /** Two segments with no host in common, the first ending where the second starts, make one. */
  lemma {:induction false} SegJoin(head: Host?, a: seq<Host>, mid: Host?, b: seq<Host>, end: Host?)
    requires Seg(head, a, mid) && Seg(mid, b, end)
    requires forall x :: x in a ==> x !in b
    ensures Seg(head, a + b, end)
    decreases |a|
  {
    if a == [] {
      assert a + b == b;
    } else {
      assert (a + b)[1..] == a[1..] + b;
      SegJoin(a[0].next, a[1..], mid, b, end);
    }
  }

  /** A segment splits anywhere into two segments with no host in common. */
  lemma {:induction false} SegSplit(head: Host?, a: seq<Host>, b: seq<Host>, end: Host?)
    requires Seg(head, a + b, end)
    ensures Seg(head, a, if b == [] then end else b[0])
    ensures Seg(if b == [] then end else b[0], b, end)
    ensures forall x :: x in a ==> x !in b
    decreases |a|
  {
    if a == [] {
      assert a + b == b;
    } else {
      assert (a + b)[1..] == a[1..] + b;
      SegSplit(a[0].next, a[1..], b, end);
    }
  }

  /** The link out of the i-th host of a segment leads to the next host, or to the end after the last. */
  lemma {:induction false} SegNext(head: Host?, nodes: seq<Host>, end: Host?, i: nat)
    requires Seg(head, nodes, end) && i < |nodes|
    ensures nodes[i].next == (if i + 1 < |nodes| then nodes[i + 1] else end)
    decreases i
  {
    if i > 0 {
      SegNext(nodes[0].next, nodes[1..], end, i - 1);
    }
  }

  /** The hosts of a segment are pairwise distinct. */
  lemma {:induction false} SegDistinct(head: Host?, nodes: seq<Host>, end: Host?)
    requires Seg(head, nodes, end)
    ensures forall i, j :: 0 <= i < j < |nodes| ==> nodes[i] != nodes[j]
    decreases |nodes|
  {
    if nodes != [] {
      var tail := nodes[1..];
      SegDistinct(nodes[0].next, tail, end);
      forall i, j | 0 <= i < j < |nodes|
        ensures nodes[i] != nodes[j]
      {
        assert nodes[j] == tail[j - 1];
        if i > 0 {
          assert nodes[i] == tail[i - 1];
        }
      }
    }
  }

  /** The socket addresses of a list's hosts, in list order. */
  ghost function SockAddrs(nodes: seq<Host>): (addrs: seq<seq<Byte>>)
    ensures |addrs| == |nodes|
    ensures forall i :: 0 <= i < |nodes| ==> addrs[i] == nodes[i].sockaddr
  {
    seq(|nodes|, i requires 0 <= i < |nodes| => nodes[i].sockaddr)
  }

  /** The addresses of two lists one after the other are those of the joined list. */
  lemma SockAddrsAppend(a: seq<Host>, b: seq<Host>)
    ensures SockAddrs(a + b) == SockAddrs(a) + SockAddrs(b)
  {
    assert forall i :: 0 <= i < |a + b| ==> (a + b)[i] == (if i < |a| then a[i] else b[i - |a|]);
  }

  // ---------------------------------------------------------------------------
  // host_create

  /** struct addrinfo as host_create uses it: ai_addr, whose length is ai_addrlen. */
  datatype AddrInfo = AddrInfo(addr: seq<Byte>)

  /** struct gaicb after resolution: gai_error's result and the ar_result chain. */
  datatype Lookup = Lookup(error: int, results: seq<AddrInfo>)

  /** The addresses of one ar_result chain, in chain order. */
  function Addresses(results: seq<AddrInfo>): (addrs: seq<seq<Byte>>)
    ensures |addrs| == |results|
    ensures forall i :: 0 <= i < |results| ==> addrs[i] == results[i].addr
  {
    seq(|results|, i requires 0 <= i < |results| => results[i].addr)
  }

  /** What one lookup contributes to the host list: its addresses when it succeeded, nothing otherwise. */
  function Contribution(lookup: Lookup): seq<seq<Byte>>
  {
    if lookup.error == 0 then Addresses(lookup.results) else []
  }

  /** The addresses host_create links up: every successful lookup's answers, in order. */
  function Resolved(list: seq<Lookup>): seq<seq<Byte>>
  {
    if list == [] then [] else Resolved(list[..|list| - 1]) + Contribution(list[|list| - 1])
  }

  /** Resolving a list in two parts gives the two parts' addresses one after the other. */
  lemma {:induction false} ResolvedAppend(a: seq<Lookup>, b: seq<Lookup>)
    ensures Resolved(a + b) == Resolved(a) + Resolved(b)
  {
    if b == [] {
      assert a + b == a;
    } else {
      var ab, b' := a + b, b[..|b| - 1];
      assert ab[..|ab| - 1] == a + b' && ab[|ab| - 1] == b[|b| - 1];
      ResolvedAppend(a, b');
      var last := Contribution(b[|b| - 1]);
      assert Resolved(ab) == Resolved(a + b') + last;
      assert Resolved(b) == Resolved(b') + last;
      ConcatAssoc(Resolved(a), Resolved(b'), last);
    }
  }

  /** Concatenation is associative. */
  lemma ConcatAssoc<T>(x: seq<T>, y: seq<T>, z: seq<T>)
    ensures x + y + z == x + (y + z)
  {
  }

  /** Resolving one more lookup adds that lookup's contribution. */
  lemma ResolvedStep(list: seq<Lookup>, i: nat)
    requires i < |list|
    ensures Resolved(list[..i + 1]) == Resolved(list[..i]) + Contribution(list[i])
  {
    assert list[..i + 1][..i] == list[..i];
  }

  /** The hosts created for lookup i, appended to those of the lookups before it, have the addresses resolved so far. */
  lemma CreateStep(nodes: seq<Host>, added: seq<Host>, list: seq<Lookup>, i: nat)
    requires i < |list|
    requires SockAddrs(nodes) == Resolved(list[..i])
    requires SockAddrs(added) == Contribution(list[i])
    ensures SockAddrs(nodes + added) == Resolved(list[..i + 1])
  {
    ResolvedStep(list, i);
    SockAddrsAppend(nodes, added);
  }

  /** A failed lookup contributes no host, wherever it stands in the list. */
  lemma ResolvedSkipsFailed(a: seq<Lookup>, failed: Lookup, b: seq<Lookup>)
    requires failed.error != 0
    ensures Resolved(a + [failed] + b) == Resolved(a + b)
  {
    ResolvedAppend(a + [failed], b);
    ResolvedAppend(a, b);
    assert (a + [failed])[..|a|] == a;
  }

  /** The last host of `s`, or null when there is none. */
  function LastOrNull(s: seq<Host>): Host?
  {
    if s == [] then null else s[|s| - 1]
  }

  /** Appending the host made for the next answer keeps the added hosts' addresses those of the answers so far. */
  lemma AddedStep(nodes: seq<Host>, added: seq<Host>, h: Host, results: seq<AddrInfo>, j: nat)
    requires j < |results| && h.sockaddr == results[j].addr
    requires SockAddrs(added) == Addresses(results[..j])
    ensures SockAddrs(added + [h]) == Addresses(results[..j + 1])
    ensures nodes + (added + [h]) == nodes + added + [h]
  {
    SockAddrsAppend(added, [h]);
    assert results[..j + 1] == results[..j] + [results[j]];
  }

  /**
   * One append of host_create: a fresh host for `addr` becomes the head when
   * the list is empty and is linked after `last` otherwise.
   */
  method Append(head: Host?, last: Host?, ghost nodes: seq<Host>, addr: seq<Byte>)
    returns (newHead: Host?, h: Host, ghost nodes': seq<Host>)
    requires IsList(head, nodes)
    requires last == LastOrNull(nodes)
    modifies (set x | x in nodes)`next
    ensures fresh(h) && h.sockaddr == addr && h.sockaddrLen == |addr|
    ensures nodes' == nodes + [h]
    ensures IsList(newHead, nodes')
  {
    h := new Host(addr);
    assert Seg(h, [h], null);
    newHead := head;
    if head == null {
      newHead := h;
    }
    if last != null {
      ghost var front := nodes[..|nodes| - 1];
      assert nodes == front + [last];
      SegSplit(head, front, [last], null);
      last.next := h;
      assert Seg(last, [last, h], null);
      SegJoin(head, front, last, [last, h], null);
      assert front + [last, h] == nodes + [h];
    }
    nodes' := nodes + [h];
  }

  /** The inner loop of host_create: one host per answer of a successful lookup, appended in order. */
  method AppendAll(head: Host?, last: Host?, ghost nodes: seq<Host>, results: seq<AddrInfo>)
    returns (newHead: Host?, newLast: Host?, ghost added: seq<Host>)
    requires IsList(head, nodes)
    requires last == LastOrNull(nodes)
    modifies (set x | x in nodes)`next
    ensures IsList(newHead, nodes + added)
    ensures newLast == LastOrNull(nodes + added)
    ensures SockAddrs(added) == Addresses(results)
    ensures forall x :: x in added ==> fresh(x) && x.sockaddrLen == |x.sockaddr|
  {
    newHead, newLast, added := head, last, [];
    ghost var all := nodes;
    var j := 0;
    while j < |results|
      invariant 0 <= j <= |results|
      invariant all == nodes + added
      invariant IsList(newHead, all)
      invariant newLast == LastOrNull(all)
      invariant SockAddrs(added) == Addresses(results[..j])
      invariant forall x :: x in added ==> fresh(x) && x.sockaddrLen == |x.sockaddr|
    {
      var h;
      newHead, h, all := Append(newHead, newLast, all, results[j].addr);
      newLast := h;
      AddedStep(nodes, added, h, results, j);
      added := added + [h];
      j := j + 1;
    }
    assert results[..j] == results;
  }

  /**
   * host_create: for every lookup without error, one fresh host per answer,
   * appended through the `last` pointer; the head is the first host created.
   */
  method Create(list: seq<Lookup>) returns (head: Host?, ghost nodes: seq<Host>)
    ensures IsList(head, nodes)
    ensures SockAddrs(nodes) == Resolved(list)
    ensures forall i :: 0 <= i < |nodes| ==> nodes[i].sockaddrLen == |nodes[i].sockaddr|
    ensures forall i :: 0 <= i < |nodes| ==> fresh(nodes[i])
  {
    head := null;
    var last: Host? := null;
    nodes := [];
    var i := 0;
    while i < |list|
      invariant 0 <= i <= |list|
      invariant IsList(head, nodes)
      invariant last == LastOrNull(nodes)
      invariant SockAddrs(nodes) == Resolved(list[..i])
      invariant forall x :: x in nodes ==> fresh(x) && x.sockaddrLen == |x.sockaddr|
    {
      if list[i].error == 0 {
        ghost var added;
        head, last, added := AppendAll(head, last, nodes, list[i].results);
        CreateStep(nodes, added, list, i);
        nodes := nodes + added;
      } else {
        ResolvedStep(list, i);
      }
      i := i + 1;
    }
    assert list[..i] == list;
  }

  // ---------------------------------------------------------------------------
  // Evaluation records and eval_reply

  /** tv_nsec of a timespec the clock delivers. */
  type Nanos = n: int | 0 <= n < 1_000_000_000

  /** struct timespec: a reading of the monotonic clock. */
  datatype Timespec = Timespec(sec: int, nsec: Nanos)

  /** struct eval_host: the evaluation state of one host. */
  datatype EvalHost = EvalHost(
    host: Host?,
    sendTime: Timespec,
    curSeqno: U16,
    id: U16,
    payload: seq<Byte>,
    done: bool,
    numTx: int,
    numRx: int)

  /** An echo reply as net_recv hands it to eval_reply: source address, id, seqno, payload. */
  datatype Reply = Reply(addr: seq<Byte>, id: U16, seqno: U16, payload: seq<Byte>)

  /**
   * The acceptance test of eval_reply: same address length and bytes, same
   * payload length and bytes, same identifier, and the sequence number the
   * host is waiting for. A record without a host matches nothing.
   */
  predicate Matches(e: EvalHost, r: Reply)
    reads e.host
  {
    && e.host != null
    && |r.addr| == e.host.sockaddrLen
    && |r.addr| <= |e.host.sockaddr| && r.addr == e.host.sockaddr[..|r.addr|]
    && |e.payload| == |r.payload| && r.payload == e.payload
    && e.id == r.id
    && e.curSeqno == r.seqno
  }

  /** The hosts evaluation records point to, leaving out null ones. */
  ghost function HostSet(s: seq<EvalHost>): set<Host>
  {
    set i | 0 <= i < |s| && s[i].host != null :: s[i].host as Host
  }

  /** The index of the first record that accepts `r`, or |s| when none does. */
  function FirstMatch(s: seq<EvalHost>, r: Reply): (k: nat)
    reads HostSet(s)
    ensures k <= |s|
    ensures k < |s| ==> Matches(s[k], r)
    ensures forall j :: 0 <= j < k ==> !Matches(s[j], r)
  {
    if s == [] then 0
    else if Matches(s[0], r) then 0
    else 1 + FirstMatch(s[1..], r)
  }

  /** A record after accepting a reply: one more received, done, and the next 16-bit sequence number. */
  function Accepted(e: EvalHost): (e': EvalHost)
    ensures e'.numRx == e.numRx + 1 && e'.done
    ensures e'.curSeqno == (e.curSeqno + 1) % 0x1_0000
    ensures e' == e.(numRx := e'.numRx, done := true, curSeqno := e'.curSeqno)
  {
    e.(numRx := e.numRx + 1, done := true, curSeqno := (e.curSeqno + 1) % 0x1_0000)
  }

  /** The elapsed microseconds diff_add computes, in uint64_t arithmetic. */
  function ElapsedUs(start: Timespec, end: Timespec): (us: int)
    ensures 0 <= us < 0x1_0000_0000_0000_0000
  {
    ((end.sec - start.sec) * 1_000_000 - start.nsec / 1000 + end.nsec / 1000) % 0x1_0000_0000_0000_0000
  }

  /** Adding to a value already wrapped to 64 bits wraps like adding to the original. */
  lemma WrapAdd64(x: int, y: int)
    ensures (x % 0x1_0000_0000_0000_0000 + y) % 0x1_0000_0000_0000_0000 == (x + y) % 0x1_0000_0000_0000_0000
  {
    var q := x / 0x1_0000_0000_0000_0000;
    assert x == q * 0x1_0000_0000_0000_0000 + x % 0x1_0000_0000_0000_0000;
  }

  /** A clock reading in whole microseconds. */
  function Micros(t: Timespec): int
  {
    t.sec * 1_000_000 + t.nsec / 1000
  }

  /**
   * For a later reading of a monotonic clock, less than 2^64 microseconds on,
   * diff_add adds exactly the difference of the two readings in microseconds.
   */
  lemma ElapsedIsMicrosDifference(start: Timespec, end: Timespec)
    requires Micros(start) <= Micros(end) < Micros(start) + 0x1_0000_0000_0000_0000
    ensures ElapsedUs(start, end) == Micros(end) - Micros(start)
  {
    assert (end.sec - start.sec) * 1_000_000 - start.nsec / 1000 + end.nsec / 1000
        == Micros(end) - Micros(start);
  }

  /** The static latency counters of host.c. */
  class Latency {
    /** latency_sum_us: uint64_t */
    var sumUs: int
    /** latency_count: uint32_t */
    var count: int

    ghost predicate Valid()
      reads this
    {
      0 <= sumUs < 0x1_0000_0000_0000_0000 && 0 <= count < 0x1_0000_0000
    }

    /** Static storage starts zeroed. */
    constructor ()
      ensures Valid() && sumUs == 0 && count == 0
    {
      sumUs, count := 0, 0;
    }

    /** diff_add: adds the elapsed microseconds to the sum and counts one more sample, both wrapping. */
    method DiffAdd(start: Timespec, end: Timespec)
      requires Valid()
      modifies this
      ensures Valid()
      ensures sumUs == (old(sumUs) + ElapsedUs(start, end)) % 0x1_0000_0000_0000_0000
      ensures count == (old(count) + 1) % 0x1_0000_0000
    {
      var us := ((end.sec - start.sec) * 1_000_000) % 0x1_0000_0000_0000_0000;
      us := (us - start.nsec / 1000) % 0x1_0000_0000_0000_0000;
      us := (us + end.nsec / 1000) % 0x1_0000_0000_0000_0000;
      ghost var whole := (end.sec - start.sec) * 1_000_000;
      WrapAdd64(whole, -(start.nsec / 1000));
      WrapAdd64(whole - start.nsec / 1000, end.nsec / 1000);
      sumUs := (sumUs + us) % 0x1_0000_0000_0000_0000;
      count := (count + 1) % 0x1_0000_0000;
    }
  }

  /**
   * eval_reply: the first record that accepts the reply counts it, is marked
   * done, moves to the next sequence number and adds its round-trip time to
   * the latency counters; every other record, and everything when no record
   * accepts, stays as it was.
   */
  method EvalReply(eval: array<EvalHost>, stats: Latency, reply: Reply, recvTime: Timespec)
    requires stats.Valid()
    modifies eval, stats
    ensures stats.Valid()
    ensures var k := FirstMatch(old(eval[..]), reply);
      && (k == eval.Length ==>
            eval[..] == old(eval[..]) && stats.sumUs == old(stats.sumUs) && stats.count == old(stats.count))
      && (k < eval.Length ==>
            && eval[..] == old(eval[..])[k := Accepted(old(eval[k]))]
            && stats.sumUs == (old(stats.sumUs) + ElapsedUs(old(eval[k]).sendTime, recvTime)) % 0x1_0000_0000_0000_0000
            && stats.count == (old(stats.count) + 1) % 0x1_0000_0000)
  {
    ghost var before := eval[..];
    var i := 0;
    while i < eval.Length
      invariant 0 <= i <= eval.Length
      invariant eval[..] == before
      invariant forall j :: 0 <= j < i ==> !Matches(before[j], reply)
      invariant stats.sumUs == old(stats.sumUs) && stats.count == old(stats.count)
    {
      var eh := eval[i];
      if Matches(eh, reply) {
        eval[i] := Accepted(eh);
        stats.DiffAdd(eh.sendTime, recvTime);
        FirstMatchIs(before, reply, i);
        return;
      }
      i := i + 1;
    }
    FirstMatchIs(before, reply, i);
  }

  /** The first accepting record is the one before which none accepts. */
  lemma FirstMatchIs(s: seq<EvalHost>, r: Reply, k: nat)
    requires k <= |s|
    requires k < |s| ==> Matches(s[k], r)
    requires forall j :: 0 <= j < k ==> !Matches(s[j], r)
    ensures FirstMatch(s, r) == k
  {
  }

  // ---------------------------------------------------------------------------
  // host_evaluate: initialisation, filtering and unlinking

  /** eval_payload: byte k of the evaluation payload is k & 0xff. */
  method MakeEvalPayload(size: nat) returns (payload: array<Byte>)
    ensures payload.Length == size
    ensures forall k :: 0 <= k < size ==> payload[k] == k % 0x100
  {
    payload := new Byte[size];
    for k := 0 to size
      invariant forall j :: 0 <= j < k ==> payload[j] == j % 0x100
    {
      payload[k] := k % 0x100;
    }
  }

  /** A zeroed eval_host, as calloc leaves it. */
  const ZeroEvalHost: EvalHost := EvalHost(null, Timespec(0, 0), 0, 0, [], false, 0, 0)

  /**
   * The initialisation loop of host_evaluate: record i points to the i-th
   * host of the list, has id i and starts at sequence number 2 * i (both
   * truncated to 16 bits), and shares the evaluation payload.
   */
  method InitEval(hosts: Host?, ghost nodes: seq<Host>, length: nat, payload: seq<Byte>)
    returns (eval: array<EvalHost>)
    requires IsList(hosts, nodes)
    requires length <= |nodes|
    ensures fresh(eval) && eval.Length == length
    ensures forall i :: 0 <= i < length ==>
      eval[i] == EvalHost(nodes[i], Timespec(0, 0), (2 * i) % 0x1_0000, i % 0x1_0000, payload, false, 0, 0)
  {
    eval := new EvalHost[length](_ => ZeroEvalHost);
    var host := hosts;
    var addr := 0;
    while addr < length
      invariant 0 <= addr <= length
      invariant IsList(host, nodes[addr..])
      invariant forall i :: addr <= i < length ==> eval[i] == ZeroEvalHost
      invariant forall i :: 0 <= i < addr ==>
        eval[i] == EvalHost(nodes[i], Timespec(0, 0), (2 * i) % 0x1_0000, i % 0x1_0000, payload, false, 0, 0)
    {
      assert nodes[addr..][1..] == nodes[addr + 1..];
      eval[addr] := eval[addr].(host := host, id := addr % 0x1_0000, curSeqno := (addr * 2) % 0x1_0000,
                                payload := payload);
      addr := addr + 1;
      host := host.next;
    }
  }

  /** A host that answered every ping it was sent, and was sent at least one. */
  predicate Good(e: EvalHost)
  {
    e.numTx != 0 && e.numTx == e.numRx
  }

  /** The number of good records. */
  function CountGood(s: seq<EvalHost>): (n: nat)
    ensures n <= |s|
  {
    if s == [] then 0 else CountGood(s[..|s| - 1]) + (if Good(s[|s| - 1]) then 1 else 0)
  }

  /**
   * The filter pass of host_evaluate: counts the good hosts and marks every
   * other host for deletion by zeroing its sockaddr_len.
   */
  method MarkFailed(eval: array<EvalHost>) returns (goodHosts: nat)
    requires forall i :: 0 <= i < eval.Length ==> eval[i].host != null
    requires forall i, j :: 0 <= i < j < eval.Length ==> eval[i].host != eval[j].host
    modifies HostSet(eval[..])`sockaddrLen
    ensures goodHosts == CountGood(eval[..])
    ensures forall i :: 0 <= i < eval.Length ==>
      eval[i].host.sockaddrLen == (if Good(eval[i]) then old(eval[i].host.sockaddrLen) else 0)
  {
    goodHosts := 0;
    var i := 0;
    while i < eval.Length
      invariant 0 <= i <= eval.Length
      invariant goodHosts == CountGood(eval[..i])
      invariant forall j :: 0 <= j < i ==>
        eval[j].host.sockaddrLen == (if Good(eval[j]) then old(eval[j].host.sockaddrLen) else 0)
      invariant forall j :: i <= j < eval.Length ==> eval[j].host.sockaddrLen == old(eval[j].host.sockaddrLen)
    {
      assert eval[..i + 1][..i] == eval[..i];
      var eh := eval[i];
      if eh.numTx == 0 || eh.numTx != eh.numRx {
        eh.host.sockaddrLen := 0;
      } else {
        goodHosts := goodHosts + 1;
      }
      i := i + 1;
    }
    assert eval[..i] == eval[..];
  }

  /** The hosts not marked for deletion, in list order. */
  ghost function Unmarked(nodes: seq<Host>): (kept: seq<Host>)
    reads (set x | x in nodes)`sockaddrLen
    ensures forall x :: x in kept ==> x in nodes
  {
    if nodes == [] then []
    else Unmarked(nodes[..|nodes| - 1]) + (if nodes[|nodes| - 1].sockaddrLen != 0 then [nodes[|nodes| - 1]] else [])
  }

  /** Visiting position k of a sequence: what lies before it, at it, and after it. */
  lemma StepAt<T>(done: seq<T>, s: seq<T>, k: nat)
    requires k < |s|
    ensures s[k..] == [s[k]] + s[k + 1..]
    ensures s[..k + 1][..k] == s[..k]
    ensures done + [s[k]] + s[k + 1..] == done + s[k..]
  {
  }

  /** In a list made of `kept`, then `host`, then `rest`: where `host` links to, and whether it is the head. */
  lemma Visit(head: Host?, kept: seq<Host>, host: Host, rest: seq<Host>)
    requires IsList(head, kept + ([host] + rest))
    ensures host.next == (if rest == [] then null else rest[0])
    ensures head == host <==> kept == []
  {
    SegSplit(head, kept, [host] + rest, null);
    assert ([host] + rest)[0] == host && ([host] + rest)[1..] == rest;
    if kept != [] {
      assert kept[0] in kept;
    }
  }

  /**
   * The removal step of the unlink pass: a marked host at the head moves the
   * head past it (*hosts = host->next), and one after `prev` is bypassed
   * (prev->next = host->next).
   */
  method Drop(head: Host?, prev: Host?, ghost kept: seq<Host>, host: Host, ghost rest: seq<Host>)
    returns (newHead: Host?)
    requires IsList(head, kept + ([host] + rest))
    requires prev == LastOrNull(kept)
    modifies (set x | x in kept)`next
    ensures IsList(newHead, kept + rest)
  {
    Visit(head, kept, host, rest);
    SegSplit(head, kept, [host] + rest, null);
    assert ([host] + rest)[0] == host && ([host] + rest)[1..] == rest;
    newHead := head;
    if host == newHead {
      newHead := host.next;
      assert kept + rest == rest;
    }
    if prev != null {
      ghost var front := kept[..|kept| - 1];
      assert kept == front + [prev] && prev in kept;
      SegSplit(newHead, front, [prev], host);
      prev.next := host.next;
      SegJoin(newHead, front, prev, [prev], prev.next);
      SegJoin(newHead, kept, prev.next, rest, null);
    }
  }

  /**
   * One iteration of the unlink pass: reads host->next, then removes `host`
   * when it is marked and otherwise makes it the new `prev`.
   */
  method UnlinkStep(head: Host?, prev: Host?, ghost kept: seq<Host>, host: Host, ghost rest: seq<Host>)
    returns (newHead: Host?, newPrev: Host?, next: Host?, ghost newKept: seq<Host>)
    requires IsList(head, kept + ([host] + rest))
    requires prev == LastOrNull(kept)
    modifies (set x | x in kept)`next
    ensures next == (if rest == [] then null else rest[0])
    ensures newKept == kept + (if host.sockaddrLen != 0 then [host] else [])
    ensures IsList(newHead, newKept + rest)
    ensures newPrev == LastOrNull(newKept)
  {
    Visit(head, kept, host, rest);
    next := host.next;
    newHead, newPrev, newKept := head, prev, kept;
    if host.sockaddrLen == 0 {
      newHead := Drop(head, prev, kept, host, rest);
    } else {
      newPrev := host;
      newKept := kept + [host];
      ConcatAssoc(kept, [host], rest);
    }
  }

  /**
   * The unlink pass of host_evaluate: walks the list, moving the head past
   * every host marked with sockaddr_len 0 and bypassing the marked hosts after
   * it; the result is exactly the unmarked hosts in their original order.
   */
  method Unlink(hosts: Host?, ghost nodes: seq<Host>) returns (newHead: Host?, ghost kept: seq<Host>)
    requires IsList(hosts, nodes)
    modifies (set x | x in nodes)`next
    ensures kept == Unmarked(nodes)
    ensures IsList(newHead, kept)
    ensures newHead == (if kept == [] then null else kept[0])
  {
    var host := hosts;
    var prev: Host? := null;
    newHead := hosts;
    kept := [];
    ghost var k := 0;
    assert kept + nodes[k..] == nodes;
    // the list from newHead is always the kept hosts followed by the hosts still to visit
    while host != null
      invariant 0 <= k <= |nodes|
      invariant kept == Unmarked(nodes[..k])
      invariant IsList(newHead, kept + nodes[k..])
      invariant host == (if k < |nodes| then nodes[k] else null)
      invariant prev == LastOrNull(kept)
      decreases |nodes| - k
    {
      StepAt(kept, nodes, k);
      ghost var keptNext := Unmarked(nodes[..k + 1]);
      newHead, prev, host, kept := UnlinkStep(newHead, prev, kept, host, nodes[k + 1..]);
      k := k + 1;
      assert Unmarked(nodes[..k]) == keptNext;
    }
    assert nodes[..k] == nodes;
    assert kept + nodes[k..] == kept;
  }

  /** The list's hosts whose records are good, in list order. */
  function GoodNodes(nodes: seq<Host>, evals: seq<EvalHost>): (good: seq<Host>)
    requires |nodes| == |evals|
    ensures |good| <= |nodes|
    ensures forall x :: x in good ==> x in nodes
  {
    if nodes == [] then []
    else GoodNodes(nodes[..|nodes| - 1], evals[..|evals| - 1])
         + (if Good(evals[|evals| - 1]) then [nodes[|nodes| - 1]] else [])
  }

  /** There are as many good hosts as good records. */
  lemma {:induction false} GoodNodesCount(nodes: seq<Host>, evals: seq<EvalHost>)
    requires |nodes| == |evals|
    ensures |GoodNodes(nodes, evals)| == CountGood(evals)
  {
    if nodes != [] {
      GoodNodesCount(nodes[..|nodes| - 1], evals[..|evals| - 1]);
    }
  }

  /** Once exactly the hosts of bad records are marked, the unmarked hosts are the good ones. */
  lemma {:induction false} UnmarkedAreGood(nodes: seq<Host>, evals: seq<EvalHost>)
    requires |nodes| == |evals|
    requires forall i :: 0 <= i < |nodes| ==> (nodes[i].sockaddrLen == 0 <==> !Good(evals[i]))
    ensures Unmarked(nodes) == GoodNodes(nodes, evals)
  {
    if nodes != [] {
      UnmarkedAreGood(nodes[..|nodes| - 1], evals[..|evals| - 1]);
    }
  }

  /**
   * The filter and unlink passes of host_evaluate together, on records that
   * cover the whole list: the remaining list holds exactly the hosts that
   * answered every ping, in their original order, and host_evaluate's count
   * is its length.
   */
  method Prune(eval: array<EvalHost>, hosts: Host?, ghost nodes: seq<Host>)
    returns (goodHosts: nat, newHead: Host?, ghost kept: seq<Host>)
    requires IsList(hosts, nodes)
    requires eval.Length == |nodes|
    requires forall i :: 0 <= i < |nodes| ==> eval[i].host == nodes[i]
    requires forall i :: 0 <= i < |nodes| ==> nodes[i].sockaddrLen > 0
    modifies (set x | x in nodes)`next, (set x | x in nodes)`sockaddrLen
    ensures IsList(newHead, kept)
    ensures newHead == (if kept == [] then null else kept[0])
    ensures kept == GoodNodes(nodes, eval[..])
    ensures goodHosts == |kept|
    ensures forall i :: 0 <= i < |nodes| ==>
      nodes[i].sockaddrLen == (if Good(eval[i]) then old(nodes[i].sockaddrLen) else 0)
  {
    SegDistinct(hosts, nodes, null);
    goodHosts := MarkFailed(eval);
    UnmarkedAreGood(nodes, eval[..]);
    newHead, kept := Unlink(hosts, nodes);
    GoodNodesCount(nodes, eval[..]);
  }

  // ---------------------------------------------------------------------------
  // host_use / host_get_next

  /** The static hosts_start / hosts_cur pair: a cyclic cursor over the host list. */
  class HostCursor {
    var hostsStart: Host?
    var hostsCur: Host?
    /** The list hostsStart heads. */
    ghost var nodes: seq<Host>
    /** The position in `nodes` of the host host_get_next hands out next. */
    ghost var pos: nat

    /** hostsCur is the host at `pos`, or null when `pos` is the start of the list. */
    ghost predicate Valid()
      reads this, (set x | x in nodes)`next
    {
      && IsList(hostsStart, nodes)
      && (nodes == [] ==> hostsCur == null && pos == 0)
      && (nodes != [] ==> pos < |nodes| && hostsCur == (if pos == 0 then null else nodes[pos]))
    }

    /** Static storage starts with both pointers null. */
    constructor ()
      ensures Valid() && hostsStart == null && hostsCur == null && nodes == [] && pos == 0
    {
      hostsStart, hostsCur := null, null;
      nodes, pos := [], 0;
    }

    /** host_use: sets the start of the cycle; it does not reset hostsCur. */
    method Use(hosts: Host?, ghost hostNodes: seq<Host>)
      requires IsList(hosts, hostNodes)
      modifies this
      ensures hostsStart == hosts && hostsCur == old(hostsCur)
      ensures nodes == hostNodes && pos == 0
      ensures old(hostsCur) == null ==> Valid()
    {
      hostsStart := hosts;
      nodes, pos := hostNodes, 0;
    }

    /**
     * host_get_next: hands out the hosts in list order, starting again at
     * hostsStart after the last one.
     */
    method GetNext() returns (h: Host)
      requires Valid() && hostsStart != null
      modifies this
      ensures Valid()
      ensures hostsStart == old(hostsStart) && nodes == old(nodes)
      ensures h == nodes[old(pos)]
      ensures pos == if old(pos) + 1 < |nodes| then old(pos) + 1 else 0
    {
      if hostsCur == null {
        hostsCur := hostsStart;
      }
      h := hostsCur;
      SegNext(hostsStart, nodes, null, pos);
      hostsCur := hostsCur.next;
      pos := if pos + 1 < |nodes| then pos + 1 else 0;
    }
  }
}
