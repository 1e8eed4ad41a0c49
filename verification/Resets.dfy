/** Flushing an existing TCP connection: Tuple.Run watches packets, sends resets, and destroys the
    pod's sockets once it has seen both directions (gateway/pkg/manager/connections.go). */
module Resets {
  import opened Words
  import opened Selections
  import Codec = SocketCodec

  const WORD := 0x1_0000_0000
  const IPPROTO_TCP: byte := 6

  datatype Tuple = Tuple(sourceIp: string, sourcePort: u32, destIp: string, destPort: u32)

  datatype Eth = Eth(src: string, dst: string)
  datatype Ipv4 = Ipv4(src: string, dst: string)
  datatype Tcp = Tcp(srcPort: u16, dstPort: u16, ack: u32, window: u16, syn: bool, fin: bool, rst: bool)

  /** A captured packet; a layer may be absent. */
  datatype Packet = Packet(eth: Option<Eth>, ip: Option<Ipv4>, tcp: Option<Tcp>)

  datatype Reset = Reset(
    srcMac: string, dstMac: string, srcIp: string, dstIp: string, srcPort: u16, dstPort: u16, seqNo: u32)

  datatype Dumped = Dumped(family: byte, id: Codec.SocketId)

  datatype Outcome = Flushed | TimedOut | CaptureEnded | SendError

  // ---------------------------------------------------------------- packets of the connection

  predicate Eligible(p: Packet) {
    p.eth.Some? && p.ip.Some? && p.tcp.Some? && !p.tcp.value.syn && !p.tcp.value.fin && !p.tcp.value.rst
  }

  /** The tuple's ports are converted to 16 bits before they are compared. */
  predicate IsIngress(t: Tuple, p: Packet) {
    && Eligible(p)
    && p.ip.value.src == t.sourceIp && p.tcp.value.srcPort == t.sourcePort % 0x1_0000
    && p.ip.value.dst == t.destIp && p.tcp.value.dstPort == t.destPort % 0x1_0000
  }

  predicate IsEgress(t: Tuple, p: Packet) {
    && Eligible(p)
    && p.ip.value.dst == t.sourceIp && p.tcp.value.dstPort == t.sourcePort % 0x1_0000
    && p.ip.value.src == t.destIp && p.tcp.value.srcPort == t.destPort % 0x1_0000
  }

  predicate Matches(t: Tuple, p: Packet) {
    IsIngress(t, p) || IsEgress(t, p)
  }

  ghost predicate SeenIngress(t: Tuple, ps: seq<Packet>) {
    exists i :: 0 <= i < |ps| && IsIngress(t, ps[i])
  }

  ghost predicate SeenEgress(t: Tuple, ps: seq<Packet>) {
    exists i :: 0 <= i < |ps| && IsEgress(t, ps[i])
  }

  ghost predicate SeenBoth(t: Tuple, ps: seq<Packet>) {
    SeenIngress(t, ps) && SeenEgress(t, ps)
  }

  // ---------------------------------------------------------------- resets

  /** The i-th sequence number tried against a receiver that expects `ack`. */
  function SeqNo(ack: u32, window: u16, i: nat): u32 {
    (ack + i * window) % WORD
  }

  /** The i-th reset in answer to a packet, addressed back to its sender. */
  function ResetFor(p: Packet, i: nat): Reset
    requires Eligible(p)
  {
    var tcp := p.tcp.value;
    Reset(p.eth.value.dst, p.eth.value.src, p.ip.value.dst, p.ip.value.src, tcp.dstPort, tcp.srcPort,
          SeqNo(tcp.ack, tcp.window, i))
  }

  function ResetsFor(p: Packet, count: nat): seq<Reset>
    requires Eligible(p)
  {
    seq(count, (i: nat) => ResetFor(p, i))
  }

  /** Resets for every eligible packet, whether or not it belongs to the connection. */
  function AllResets(ps: seq<Packet>, count: nat): seq<Reset> {
    if ps == [] then []
    else AllResets(ps[..|ps| - 1], count) + (if Eligible(ps[|ps| - 1]) then ResetsFor(ps[|ps| - 1], count) else [])
  }

  function CountEligible(ps: seq<Packet>): nat {
    if ps == [] then 0 else CountEligible(ps[..|ps| - 1]) + (if Eligible(ps[|ps| - 1]) then 1 else 0)
  }

  /** The packets from the first one of the connection on. */
  function FromFirstMatch(t: Tuple, ps: seq<Packet>): seq<Packet> {
    if ps == [] || Matches(t, ps[0]) then ps else FromFirstMatch(t, ps[1..])
  }

  lemma {:induction false} FirstMatchSplits(t: Tuple, ps: seq<Packet>)
    ensures var rest := FromFirstMatch(t, ps);
            && |rest| <= |ps| && rest == ps[|ps| - |rest|..]
            && (forall i | 0 <= i < |ps| - |rest| :: !Matches(t, ps[i]))
            && (rest != [] ==> Matches(t, rest[0]))
  {
    if ps != [] && !Matches(t, ps[0]) {
      FirstMatchSplits(t, ps[1..]);
    }
  }

  /** What the connection's flush owes for these packets. */
  function Owed(t: Tuple, ps: seq<Packet>, count: nat): seq<Reset> {
    AllResets(FromFirstMatch(t, ps), count)
  }

  // ---------------------------------------------------------------- the loop

  /** IsLoopback of net.IP. */
  predicate IsLoopback(ip: Codec.Ip) {
    match Codec.To4(ip)
    case Some(quad) => quad[0] == 127
    case None => ip == seq(15, _ => 0) + [1]
  }

  predicate IsOffLoopback(d: Dumped) {
    !IsLoopback(d.id.source)
  }

  function RequestFor(d: Dumped): Codec.SocketRequest {
    Codec.SocketRequest(d.id, 0, d.family, IPPROTO_TCP, 0, 0)
  }

  /** The destroy requests that a dump leads to. */
  function DestroyRequests(dump: seq<Dumped>): seq<Codec.SocketRequest> {
    if dump == [] then []
    else
      var last := dump[|dump| - 1];
      DestroyRequests(dump[..|dump| - 1]) + if IsOffLoopback(last) then [RequestFor(last)] else []
  }

  /** The state of the loop after the packets `ps`. */
  ghost predicate Upto(t: Tuple, ps: seq<Packet>, count: nat, ingress: bool, egress: bool, sent: seq<Reset>) {
    ingress == SeenIngress(t, ps) && egress == SeenEgress(t, ps) && sent == Owed(t, ps, count)
  }

  /** What each outcome says of the packets `ps` that were handled: all owed resets were sent, or
      the first of them; and the flush ended at the very packet that completed the pair of
      directions, or before there was one. */
  ghost predicate Reported(t: Tuple, ps: seq<Packet>, count: nat, outcome: Outcome, sent: seq<Reset>) {
    match outcome
    case Flushed => ps != [] && sent == Owed(t, ps, count) && SeenBoth(t, ps) && !SeenBoth(t, ps[..|ps| - 1])
    case SendError => ps != [] && sent <= Owed(t, ps, count) && !SeenBoth(t, ps[..|ps| - 1])
    case TimedOut => sent == Owed(t, ps, count) && !SeenBoth(t, ps)
    case CaptureEnded => sent == Owed(t, ps, count) && !SeenBoth(t, ps)
  }

  /** Tuple.Run. `deadline` is the number of packets handled before the timeout is noticed,
      `failing` the number of sends that succeed before one fails, `dump` what the kernel says
      of its sockets. `seen` counts the packets handled. */
  method Run(t: Tuple, packets: seq<Packet>, count: nat, deadline: nat, failing: Option<nat>, dump: Option<seq<Dumped>>)
    returns (outcome: Outcome, sent: seq<Reset>, destroyed: seq<Codec.SocketRequest>, seen: nat)
    ensures seen <= |packets|
    ensures Reported(t, packets[..seen], count, outcome, sent)
    ensures outcome != SendError ==> |sent| == count * |AnsweredAt(t, packets[..seen])|
    ensures outcome == SendError ==> failing == Some(|sent|)
    ensures outcome == TimedOut ==> seen == deadline && seen < |packets|
    ensures outcome == CaptureEnded ==> seen == |packets|
    ensures destroyed == if outcome == Flushed && dump.Some? then DestroyRequests(dump.value) else []
  {
    var ingress, egress := false, false;
    sent, destroyed, seen := [], [], 0;
    ghost var ps: seq<Packet> := [];
    while seen < |packets|
      invariant seen <= |packets| && ps == packets[..seen]
      invariant destroyed == []
      invariant Upto(t, ps, count, ingress, egress, sent)
      invariant !(ingress && egress)
    {
      if seen == deadline {
        outcome := TimedOut;
        OwedIsCounted(t, ps, count);
        return;
      }
      var wasIngress, wasEgress := ingress, egress;
      ghost var before, wasSent := ps, sent;
      var ok;
      ingress, egress, ok, sent := Handle(t, packets[seen], wasIngress, wasEgress, count, failing, sent);
      HandledUpto(t, before, packets[seen], count, wasIngress, wasEgress, wasSent, ingress, egress);
      ps := before + [packets[seen]];
      seen := seen + 1;
      assert ps == packets[..seen] && ps[..|ps| - 1] == before;
      if !ok {
        return SendError, sent, destroyed, seen;
      }
      if egress && ingress {
        OwedIsCounted(t, ps, count);
        if dump.Some? {
          destroyed := Destroy(dump.value);
        }
        return Flushed, sent, destroyed, seen;
      }
    }
    outcome := CaptureEnded;
    OwedIsCounted(t, ps, count);
  }

  lemma HandledUpto(t: Tuple, before: seq<Packet>, p: Packet, count: nat, wasIngress: bool, wasEgress: bool,
                    sent: seq<Reset>, ingress: bool, egress: bool)
    requires Upto(t, before, count, wasIngress, wasEgress, sent)
    requires ingress == (wasIngress || IsIngress(t, p)) && egress == (wasEgress || IsEgress(t, p))
    ensures Upto(t, before + [p], count, ingress, egress,
                 sent + if Eligible(p) && (ingress || egress) then ResetsFor(p, count) else [])
  {
    SeenAfter(t, before, p);
    OwedAfter(t, before, p, count);
  }

  /** One packet: ineligible ones are passed over, others may set a flag, and are answered with
      resets once any flag is set. */
  method Handle(t: Tuple, packet: Packet, wasIngress: bool, wasEgress: bool, count: nat, failing: Option<nat>,
                before: seq<Reset>)
    returns (ingress: bool, egress: bool, ok: bool, sent: seq<Reset>)
    ensures ingress == (wasIngress || IsIngress(t, packet)) && egress == (wasEgress || IsEgress(t, packet))
    ensures var owed := before + if Eligible(packet) && (ingress || egress) then ResetsFor(packet, count) else [];
            && (ok ==> sent == owed)
            && (!ok ==> failing == Some(|sent|) && sent <= owed)
  {
    ingress, egress, ok, sent := wasIngress, wasEgress, true, before;
    if !Eligible(packet) {
      return;
    }
    if IsIngress(t, packet) {
      ingress := true;
    }
    if IsEgress(t, packet) {
      egress := true;
    }
    if ingress || egress {
      ok, sent := SendResets(packet, count, failing, before);
    }
  }

  /** The inner loop, in the 32-bit arithmetic of the source. */
  method SendResets(p: Packet, count: nat, failing: Option<nat>, before: seq<Reset>)
    returns (ok: bool, sent: seq<Reset>)
    requires Eligible(p)
    ensures ok ==> sent == before + ResetsFor(p, count)
    ensures !ok ==> failing == Some(|sent|) && sent <= before + ResetsFor(p, count) && before <= sent
  {
    sent := before;
    var tcp := p.tcp.value;
    for i := 0 to count
      invariant sent == before + ResetsFor(p, i)
    {
      var seqNo := (tcp.ack + i % WORD * tcp.window % WORD) % WORD;
      SeqNoWraps(tcp.ack, tcp.window, i);
      assert ResetsFor(p, i + 1) == ResetsFor(p, i) + [ResetFor(p, i)];
      if failing == Some(|sent|) {
        assert ResetsFor(p, count)[..i] == ResetsFor(p, i);
        return false, sent;
      }
      sent := sent + [Reset(p.eth.value.dst, p.eth.value.src, p.ip.value.dst, p.ip.value.src,
                            tcp.dstPort, tcp.srcPort, seqNo)];
    }
    ok := true;
  }

  method Destroy(dump: seq<Dumped>) returns (requests: seq<Codec.SocketRequest>)
    ensures requests == DestroyRequests(dump)
  {
    requests := [];
    for x := 0 to |dump|
      invariant requests == DestroyRequests(dump[..x])
    {
      assert dump[..x + 1][..x] == dump[..x];
      if IsOffLoopback(dump[x]) {
        requests := requests + [RequestFor(dump[x])];
      }
    }
    assert dump[..|dump|] == dump;
  }

  lemma SeqNoWraps(ack: u32, window: u16, i: nat)
    ensures (ack + i % WORD * window % WORD) % WORD == SeqNo(ack, window, i)
  {
    var q := i / WORD;
    assert i * window == i % WORD * window + (q * window) * WORD;
  }

  lemma SeenAfter(t: Tuple, before: seq<Packet>, p: Packet)
    ensures SeenIngress(t, before + [p]) <==> SeenIngress(t, before) || IsIngress(t, p)
    ensures SeenEgress(t, before + [p]) <==> SeenEgress(t, before) || IsEgress(t, p)
  {
    var after := before + [p];
    assert after[|before|] == p;
    assert forall i | 0 <= i < |before| :: after[i] == before[i];
  }

  /** A packet is answered with resets exactly when it is eligible and a packet of the connection
      has been seen by then, itself included. */
  lemma {:induction false} OwedAfter(t: Tuple, before: seq<Packet>, p: Packet, count: nat)
    ensures Owed(t, before + [p], count) ==
            Owed(t, before, count) +
            (if Eligible(p) && (SeenIngress(t, before + [p]) || SeenEgress(t, before + [p])) then ResetsFor(p, count)
             else [])
  {
    FromFirstMatchAfter(t, before, p);
    FirstMatchSplits(t, before);
    var rest := FromFirstMatch(t, before);
    if rest != [] {
      assert Matches(t, before[|before| - |rest|]);
      SeenAfter(t, before, p);
      assert (rest + [p])[..|rest|] == rest;
    } else {
      SeenAfter(t, before, p);
      assert [p][..0] == [];
    }
  }

  /** So a packet of another connection draws resets exactly when it is eligible and the watched
      connection has been seen before. */
  lemma OtherConnectionsToo(t: Tuple, before: seq<Packet>, p: Packet, count: nat)
    requires count > 0 && !Matches(t, p)
    ensures Owed(t, before + [p], count) != Owed(t, before, count) <==>
            Eligible(p) && (SeenIngress(t, before) || SeenEgress(t, before))
  {
    OwedAfter(t, before, p, count);
    SeenAfter(t, before, p);
    if Eligible(p) {
      assert |ResetsFor(p, count)| == count;
    }
  }

  lemma {:induction false} FromFirstMatchAfter(t: Tuple, before: seq<Packet>, p: Packet)
    ensures FromFirstMatch(t, before + [p]) ==
            if FromFirstMatch(t, before) != [] then FromFirstMatch(t, before) + [p]
            else if Matches(t, p) then [p] else []
  {
    if before == [] {
      assert before + [p] == [p];
    } else if !Matches(t, before[0]) {
      assert (before + [p])[1..] == before[1..] + [p];
      FromFirstMatchAfter(t, before[1..], p);
    }
  }

  /** A reset looks like one from the packet's receiver to its sender; for a packet of the
      connection, it travels the connection the other way. The first one carries the very number
      the sender expects. */
  lemma ResetTravelsBack(t: Tuple, p: Packet, i: nat)
    requires Matches(t, p)
    ensures var r := ResetFor(p, i);
            var asPacket := Packet(Some(Eth(r.srcMac, r.dstMac)), Some(Ipv4(r.srcIp, r.dstIp)),
                                   Some(Tcp(r.srcPort, r.dstPort, 0, 0, false, false, false)));
            && (IsIngress(t, p) <==> IsEgress(t, asPacket)) && (IsEgress(t, p) <==> IsIngress(t, asPacket))
            && r.srcMac == p.eth.value.dst && r.dstMac == p.eth.value.src
            && (i == 0 ==> r.seqNo == p.tcp.value.ack)
  {
  }

  // ---------------------------------------------------------------- in terms of the packets themselves

  /** A packet without one of the three layers, or with SYN, FIN or RST set, is passed over: it shows
      neither direction and draws no reset. */
  lemma PassedOver(t: Tuple, before: seq<Packet>, p: Packet, count: nat)
    requires || p.eth.None? || p.ip.None? || p.tcp.None?
             || p.tcp.value.syn || p.tcp.value.fin || p.tcp.value.rst
    ensures SeenIngress(t, before + [p]) <==> SeenIngress(t, before)
    ensures SeenEgress(t, before + [p]) <==> SeenEgress(t, before)
    ensures Owed(t, before + [p], count) == Owed(t, before, count)
  {
    SeenAfter(t, before, p);
    OwedAfter(t, before, p, count);
  }

  /** Any other packet shows the ingress direction if it goes from the tuple's source to its destination,
      and the egress direction if it goes the other way. */
  lemma ShowsDirection(t: Tuple, before: seq<Packet>, p: Packet)
    requires p.eth.Some? && p.ip.Some? && p.tcp.Some?
    requires !p.tcp.value.syn && !p.tcp.value.fin && !p.tcp.value.rst
    ensures var (ip, tcp) := (p.ip.value, p.tcp.value);
            && (SeenIngress(t, before + [p]) <==>
                  || SeenIngress(t, before)
                  || (ip.src == t.sourceIp && tcp.srcPort == t.sourcePort % 0x1_0000
                      && ip.dst == t.destIp && tcp.dstPort == t.destPort % 0x1_0000))
            && (SeenEgress(t, before + [p]) <==>
                  || SeenEgress(t, before)
                  || (ip.src == t.destIp && tcp.srcPort == t.destPort % 0x1_0000
                      && ip.dst == t.sourceIp && tcp.dstPort == t.sourcePort % 0x1_0000))
  {
    SeenAfter(t, before, p);
  }

  /** And after the first that shows one of them, itself included, it draws exactly `count` resets. */
  lemma DrawsResets(t: Tuple, before: seq<Packet>, p: Packet, count: nat)
    requires p.eth.Some? && p.ip.Some? && p.tcp.Some?
    requires !p.tcp.value.syn && !p.tcp.value.fin && !p.tcp.value.rst
    ensures var seen := SeenIngress(t, before + [p]) || SeenEgress(t, before + [p]);
            var (sent, now) := (Owed(t, before, count), Owed(t, before + [p], count));
            && |now| == |sent| + (if seen then count else 0) && sent <= now
            && forall i: nat | i < count && seen ::
                 now[|sent| + i] == PlainReset(p.eth.value, p.ip.value, p.tcp.value, i)
  {
    OwedAfter(t, before, p, count);
    if SeenIngress(t, before + [p]) || SeenEgress(t, before + [p]) {
      AnswersBehind(Owed(t, before, count), p, count);
    }
  }

  lemma AnswersBehind(sent: seq<Reset>, p: Packet, count: nat)
    requires Eligible(p)
    ensures var now := sent + ResetsFor(p, count);
            && |now| == |sent| + count
            && forall i: nat | i < count ::
                 now[|sent| + i] == PlainReset(p.eth.value, p.ip.value, p.tcp.value, i)
  {
    forall i: nat | i < count
      ensures ResetsFor(p, count)[i] == PlainReset(p.eth.value, p.ip.value, p.tcp.value, i)
    {
    }
  }

  /** A reset from the packet's receiver to its sender, with the i-th number after the acknowledged one. */
  function PlainReset(eth: Eth, ip: Ipv4, tcp: Tcp, i: nat): Reset {
    Reset(eth.dst, eth.src, ip.dst, ip.src, tcp.dstPort, tcp.srcPort, (tcp.ack + i * tcp.window) % 0x1_0000_0000)
  }

  /** The positions of the packets that are answered: all layers there, no SYN, FIN or RST, and by then one
      of them has gone from one end of the connection to the other. */
  ghost function AnsweredAt(t: Tuple, ps: seq<Packet>): set<nat> {
    set i: nat | i < |ps| && IsAnswered(t, ps, i)
  }

  ghost predicate IsAnswered(t: Tuple, ps: seq<Packet>, i: nat)
    requires i < |ps|
  {
    && HasNoFlags(ps[i])
    && exists j :: 0 <= j <= i && HasNoFlags(ps[j]) && IsBetween(t, ps[j].ip.value, ps[j].tcp.value)
  }

  predicate HasNoFlags(p: Packet) {
    match p
    case Packet(Some(_), Some(_), Some(tcp)) => !(tcp.syn || tcp.fin || tcp.rst)
    case _ => false
  }

  predicate IsBetween(t: Tuple, ip: Ipv4, tcp: Tcp) {
    || (ip.src == t.sourceIp && tcp.srcPort == t.sourcePort % 0x1_0000
        && ip.dst == t.destIp && tcp.dstPort == t.destPort % 0x1_0000)
    || (ip.dst == t.sourceIp && tcp.dstPort == t.sourcePort % 0x1_0000
        && ip.src == t.destIp && tcp.srcPort == t.destPort % 0x1_0000)
  }

  lemma AnsweredAfter(t: Tuple, before: seq<Packet>, p: Packet)
    ensures AnsweredAt(t, before + [p]) ==
            AnsweredAt(t, before) +
            if HasNoFlags(p) && (SeenIngress(t, before + [p]) || SeenEgress(t, before + [p])) then {|before|} else {}
  {
    var ps := before + [p];
    assert ps[|before|] == p;
    assert forall i | 0 <= i < |before| :: ps[i] == before[i];
    assert forall q :: Eligible(q) <==> HasNoFlags(q);
    assert SeenIngress(t, ps) || SeenEgress(t, ps) <==>
           exists j :: 0 <= j <= |before| && HasNoFlags(ps[j]) && IsBetween(t, ps[j].ip.value, ps[j].tcp.value);
    forall i: nat | i < |before|
      ensures IsAnswered(t, ps, i) <==> IsAnswered(t, before, i)
    {
    }
  }

  /** There are `count` resets for each of them, and no others. */
  lemma {:induction false} OwedIsCounted(t: Tuple, ps: seq<Packet>, count: nat)
    ensures |Owed(t, ps, count)| == count * |AnsweredAt(t, ps)|
  {
    if ps == [] {
      assert AnsweredAt(t, ps) == {};
    } else {
      var before, p := ps[..|ps| - 1], ps[|ps| - 1];
      assert ps == before + [p];
      OwedIsCounted(t, before, count);
      OneMoreCounted(t, before, p, count);
      OneMore(count, |AnsweredAt(t, before)|);
    }
  }

  lemma OneMoreCounted(t: Tuple, before: seq<Packet>, p: Packet, count: nat)
    ensures var more := HasNoFlags(p) && (SeenIngress(t, before + [p]) || SeenEgress(t, before + [p]));
            && |Owed(t, before + [p], count)| == |Owed(t, before, count)| + (if more then count else 0)
            && |AnsweredAt(t, before + [p])| == |AnsweredAt(t, before)| + (if more then 1 else 0)
  {
    OwedAfter(t, before, p, count);
    AnsweredAfter(t, before, p);
    assert |before| !in AnsweredAt(t, before);
  }

  lemma OneMore(count: nat, k: nat)
    ensures count * (k + 1) == count * k + count
  {
  }

  // ---------------------------------------------------------------- which sockets are destroyed

  /** The loopback addresses: 127.0.0.0/8, in 4 bytes or in 16, and ::1. */
  lemma LoopbackExactlyWhen(ip: Codec.Ip)
    ensures IsLoopback(ip) <==>
              || (|ip| == 4 && ip[0] == 127)
              || (|ip| == 16 && ip[..12] == [0, 0, 0, 0, 0, 0, 0, 0, 0, 0, 0xFF, 0xFF] && ip[12] == 127)
              || ip == [0, 0, 0, 0, 0, 0, 0, 0, 0, 0, 0, 0, 0, 0, 0, 1]
  {
    var one: Codec.Ip := [0, 0, 0, 0, 0, 0, 0, 0, 0, 0, 0, 0, 0, 0, 0, 1];
    assert seq(15, _ => 0) + [1] == one;
    assert one[..12][10] == 0 && Codec.MAPPED[10] == 0xFF;
  }

  predicate AreRequests(requests: seq<Codec.SocketRequest>, at: seq<nat>, dump: seq<Dumped>) {
    && |requests| == |at|
    && forall k | 0 <= k < |at| ::
         at[k] < |dump| && requests[k] == Codec.SocketRequest(dump[at[k]].id, 0, dump[at[k]].family, 6, 0, 0)
  }

  lemma RequestsMore(requests: seq<Codec.SocketRequest>, at: seq<nat>, dump: seq<Dumped>, d: Dumped)
    requires AreRequests(requests, at, dump)
    ensures AreRequests(requests, at, dump + [d])
    ensures AreRequests(requests + [RequestFor(d)], at + [|dump|], dump + [d])
  {
  }

  /** The requests are for exactly the dumped sockets off the loopback addresses, one for each, and in
      the order of the dump. */
  lemma {:induction false} RequestsFollowDump(dump: seq<Dumped>) returns (at: seq<nat>)
    ensures Selects(at, dump, IsOffLoopback) && AreRequests(DestroyRequests(dump), at, dump)
  {
    if dump == [] {
      at := [];
    } else {
      var front, last := dump[..|dump| - 1], dump[|dump| - 1];
      var before := RequestsFollowDump(front);
      assert dump == front + [last];
      SelectsMore(before, front, last, IsOffLoopback);
      RequestsMore(DestroyRequests(front), before, front, last);
      at := if IsOffLoopback(last) then before + [|front|] else before;
    }
  }

  // ---------------------------------------------------------------- how many resets

  lemma {:induction false} ResetCount(ps: seq<Packet>, count: nat)
    ensures |AllResets(ps, count)| == count * CountEligible(ps)
  {
    if ps != [] {
      var k := CountEligible(ps[..|ps| - 1]);
      ResetCount(ps[..|ps| - 1], count);
      assert count * (k + 1) == count * k + count;
    }
  }

  /** No reset precedes the first packet of the connection; from it on there are `count` for every
      eligible packet. Some are sent exactly when there was such a packet. */
  lemma FlushBudget(t: Tuple, ps: seq<Packet>, count: nat)
    requires count > 0
    ensures |Owed(t, ps, count)| == count * CountEligible(FromFirstMatch(t, ps))
    ensures Owed(t, ps, count) != [] <==> SeenIngress(t, ps) || SeenEgress(t, ps)
  {
    var rest := FromFirstMatch(t, ps);
    FirstMatchSplits(t, ps);
    ResetCount(rest, count);
    if rest != [] {
      assert Matches(t, ps[|ps| - |rest|]);
      SomeEligible(rest);
    }
  }

  lemma {:induction false} SomeEligible(ps: seq<Packet>)
    requires ps != [] && Eligible(ps[0])
    ensures CountEligible(ps) > 0
  {
    if |ps| > 1 {
      SomeEligible(ps[..|ps| - 1]);
    }
  }

  // ---------------------------------------------------------------- sequence numbers

  /** RFC 9293, section 3.4: a number lies in the window of `size` starting at `left`, modulo 2^32. */
  predicate InWindow(seqNo: u32, left: u32, size: nat) {
    (seqNo - left) % WORD < size
  }

  /** Distance of the i-th number from a window edge x past the acknowledgement. */
  lemma OffsetOf(ack: u32, window: u16, i: nat, x: nat)
    requires i * window < WORD && x < WORD
    ensures (SeqNo(ack, window, i) - (ack + x) % WORD) % WORD ==
            if i * window >= x then i * window - x else i * window - x + WORD
  {
    Distance(ack, i * window, x);
  }

  /** How far two numbers past the acknowledgement are apart, modulo 2^32. */
  lemma Distance(ack: u32, y: nat, x: nat)
    requires y < WORD && x < WORD
    ensures ((ack + y) % WORD - (ack + x) % WORD) % WORD == if y >= x then y - x else y - x + WORD
  {
    var p, q := Wraps(ack, y), Wraps(ack, x);
    var apart := if y >= x then y - x else y - x + WORD;
    var d := ack + y - p * WORD - (ack + x - q * WORD);
    assert (ack + y) % WORD - (ack + x) % WORD == d;
    assert d == apart || d == apart + WORD || d == apart - WORD;
  }

  /** Whether adding an offset wraps round. */
  function Wraps(ack: u32, y: nat): (p: nat)
    requires y < WORD
    ensures p <= 1 && (ack + y) % WORD == ack + y - p * WORD
  {
    if ack + y < WORD then 0 else 1
  }

  /** The numbers tile the sequence space: the first is the acknowledgement itself, and a receive
      window at offset x contains one of them exactly when x is at most (count - 1) windows, or the
      window wraps round to the acknowledgement; and never two. */
  lemma ResetsTileWindows(ack: u32, window: u16, count: nat, x: nat)
    requires window > 0 && count > 0 && count * window <= WORD && x < WORD
    ensures SeqNo(ack, window, 0) == ack
    ensures (exists i :: 0 <= i < count && InWindow(SeqNo(ack, window, i), (ack + x) % WORD, window)) <==>
            x <= (count - 1) * window || x + window > WORD
    ensures forall i, j | 0 <= i < count && 0 <= j < count
              && InWindow(SeqNo(ack, window, i), (ack + x) % WORD, window)
              && InWindow(SeqNo(ack, window, j), (ack + x) % WORD, window) :: i == j
  {
    forall i | 0 <= i < count
      ensures InWindow(SeqNo(ack, window, i), (ack + x) % WORD, window) <==> Hits(i, x, window)
    {
      InWindowIsHit(ack, window, count, x, i);
    }
    HitExists(window, count, x);
    forall i, j | 0 <= i < count && 0 <= j < count && Hits(i, x, window) && Hits(j, x, window)
      ensures i == j
    {
      HitIsUnique(window, count, x, i, j);
      HitIsUnique(window, count, x, j, i);
    }
  }

  /** Product i * window falls into the window at offset x, directly or after wrapping round. */
  predicate Hits(i: nat, x: nat, window: nat) {
    x <= i * window < x + window || i * window + WORD < x + window
  }

  lemma InWindowIsHit(ack: u32, window: u16, count: nat, x: nat, i: nat)
    requires window > 0 && i < count && count * window <= WORD && x < WORD
    ensures InWindow(SeqNo(ack, window, i), (ack + x) % WORD, window) <==> Hits(i, x, window)
  {
    Spacing(i, count, window);
    OffsetOf(ack, window, i, x);
  }

  lemma Spacing(i: nat, j: nat, window: nat)
    requires i < j
    ensures i * window + window <= j * window
  {
    assert (j - i - 1) * window >= 0;
    assert j * window == i * window + window + (j - i - 1) * window;
  }

  lemma HitExists(window: nat, count: nat, x: nat)
    requires 0 < window && count > 0 && count * window <= WORD && x < WORD
    ensures (exists i :: 0 <= i < count && Hits(i, x, window)) <==> x <= (count - 1) * window || x + window > WORD
  {
    if x <= (count - 1) * window {
      var i := (x + window - 1) / window;
      assert i * window == (x + window - 1) - (x + window - 1) % window;
      QuotientBelow(x + window - 1, window, count);
      assert Hits(i, x, window);
    } else if x + window > WORD {
      assert Hits(0, x, window);
    } else {
      forall i | 0 <= i < count ensures !Hits(i, x, window) {
        if i < count - 1 {
          Spacing(i, count - 1, window);
        }
      }
    }
  }

  lemma QuotientBelow(a: nat, window: nat, count: nat)
    requires window > 0 && a < count * window
    ensures a / window < count
  {
    if count < a / window {
      Spacing(count, a / window, window);
    }
    assert a / window * window <= a;
  }

  lemma HitIsUnique(window: nat, count: nat, x: nat, i: nat, j: nat)
    requires i < count && j < count && count * window <= WORD && x < WORD
    requires Hits(i, x, window) && Hits(j, x, window)
    ensures !(i < j)
  {
    if i < j {
      Spacing(i, j, window);
      Spacing(j, count, window);
    }
  }
}
