/** The three eBPF hooks and the maps they share (ebpf/mirrors.c, ebpf/mirrors.h). */
module Mirrors {
  import opened Words
  import opened ByteOrder

  const MAX_CONNECTIONS := 20000
  const AF_INET := 2
  const IPPROTO_TCP := 6
  const ACTIVE_ESTABLISHED := 4
  const SO_ORIGINAL_DST := 80
  const SIZEOF_SOCKADDR_IN := 16
  const EXEMPT_PORTS: set<u16> := {8080, 8181, 18000, 18001}

  datatype Config = Config(
    proxyAddr: u32, proxyPort: u16, proxyPid: u64,
    podCidr: u32, podPrefixLength: byte, tunnel: byte)

  /** struct Socket: the hooks only ever fill the destination half. */
  datatype Socket = Socket(srcAddr: u32, dstAddr: u32, srcPort: u16, dstPort: u16)

  /** What the hooks run against. `shiftedOut` is the mask that a shift by 32 or more (prefix
      length 0, or above 32) happens to produce; C leaves it undefined. */
  datatype Host = Host(conf: Option<Config>, pids: set<u32>, shiftedOut: u32)

  /** One connect() as the hook sees it: the context fields in network order, and the caller's
      process id in the root namespace (`tgid`) and in its own (`nsPid`). */
  datatype Call = Call(family: nat, protocol: nat, userIp4: u32, userPort: u32, tgid: u64, nsPid: u32)

  /** A 64-bit socket cookie. As a key of `map_socks`, whose keys have 32 bits, only the four
      bytes at its address count: on a little-endian machine, the low word. */
  datatype Cookie = Cookie(low: u32, high: u32)

  datatype Tables = Tables(socks: map<u32, Socket>, ports: map<u16, Cookie>)

  // ---------------------------------------------------------------- what a connect() asks for

  /** The endpoint written in the sockaddr: its bytes in memory order. */
  function Wanted(call: Call): Endpoint {
    var ip := call.userIp4;
    Endpoint(Byte0(ip), Byte1(ip), Byte2(ip), Byte3(ip), NetworkOrder16(Byte0(call.userPort), Byte1(call.userPort)))
  }

  /** The destination in host order. */
  function HostAddress(call: Call): u32 {
    Swap32(call.userIp4)
  }

  /** The address lies in the block of the configured prefix; a block whose written network has
      host bits set holds no address. */
  predicate InPod(conf: Config, shiftedOut: u32, addr: u32) {
    if 1 <= conf.podPrefixLength <= 32 then
      var size := Pow2(32 - conf.podPrefixLength);
      conf.podCidr % size == 0 && conf.podCidr <= addr < conf.podCidr + size
    else
      And(addr, shiftedOut) == conf.podCidr
  }

  predicate FromProxy(conf: Config, call: Call) {
    if conf.tunnel == 1 then call.tgid == conf.proxyPid else SignExtend(call.nsPid) == conf.proxyPid
  }

  predicate FromPod(host: Host, conf: Config, call: Call) {
    conf.tunnel == 1 || call.nsPid in host.pids
  }

  predicate Redirects(host: Host, call: Call) {
    && call.family == AF_INET
    && call.protocol == IPPROTO_TCP
    && host.conf.Some?
    && InPod(host.conf.value, host.shiftedOut, HostAddress(call))
    && FromPod(host, host.conf.value, call)
    && !FromProxy(host.conf.value, call)
    && Wanted(call).port !in EXEMPT_PORTS
  }

  // ---------------------------------------------------------------- effect on the shared maps

  /** bpf_map_update_elem on a hash map: a new key is refused when the map is full. */
  function Put<K, V>(m: map<K, V>, k: K, v: V): map<K, V> {
    if k in m || |m| < MAX_CONNECTIONS then m[k := v] else m
  }

  function Record(call: Call): Socket {
    Socket(0, HostAddress(call), 0, Wanted(call).port)
  }

  function AfterConnect(host: Host, t: Tables, cookie: Cookie, call: Call): Tables {
    if Redirects(host, call) then t.(socks := Put(t.socks, cookie.low, Record(call))) else t
  }

  predicate IsEstablished(family: nat, op: nat) {
    family == AF_INET && op == ACTIVE_ESTABLISHED
  }

  function AfterSockOp(t: Tables, cookie: Cookie, family: nat, op: nat, localPort: u16): Tables {
    if IsEstablished(family, op) && cookie.low in t.socks then
      t.(ports := Put(t.ports, localPort, cookie))
    else t
  }

  /** The chain port, cookie, socket that a query follows. */
  function Lookup(t: Tables, clientPort: u16): Option<Socket> {
    if clientPort in t.ports && t.ports[clientPort].low in t.socks then
      Some(t.socks[t.ports[clientPort].low])
    else None
  }

  /** The first eight bytes of the sockaddr_in that a query writes. */
  function SockAddrBytes(family: u16, sock: Socket): (bytes: seq<byte>)
    ensures |bytes| == 8
  {
    Memory16(family) + Memory16(Swap16(sock.dstPort)) + Memory32(Swap32(sock.dstAddr))
  }

  /** findTargetFromConnection: the octets and port read back out of the sockaddr_in. */
  function DecodeSockAddr(optval: seq<byte>): Endpoint
    requires |optval| >= 8
  {
    Endpoint(optval[4], optval[5], optval[6], optval[7], NetworkOrder16(optval[2], optval[3]))
  }

  /** What the gateway learns about the client that connected from `clientPort`. */
  function Answer(t: Tables, clientPort: u16): Option<Endpoint> {
    match Lookup(t, clientPort)
    case Some(sock) => Some(DecodeSockAddr(SockAddrBytes(AF_INET_WORD, sock)))
    case None => None
  }

  const AF_INET_WORD: u16 := 2

  // ---------------------------------------------------------------- byte order across components

  /** Stored by connect, written by getsockopt, decoded in Go: the endpoint is the one asked for. */
  lemma ByteOrderRoundTrip(call: Call, family: u16)
    ensures DecodeSockAddr(SockAddrBytes(family, Record(call))) == Wanted(call)
  {
    var port, octets := Memory16(Swap16(Wanted(call).port)), Memory32(Swap32(HostAddress(call)));
    DecodeFields(Memory16(family), port, octets);
    SwapTwice(call.userIp4);
    SwappedPort(Wanted(call).port);
  }

  lemma DecodeFields(family: seq<byte>, port: seq<byte>, octets: seq<byte>)
    requires |family| == |port| == 2 && |octets| == 4
    ensures DecodeSockAddr(family + port + octets) ==
            Endpoint(octets[0], octets[1], octets[2], octets[3], NetworkOrder16(port[0], port[1]))
  {
  }

  lemma DecodeReadsPrefix(a: seq<byte>, b: seq<byte>)
    requires |a| >= 8 && |b| >= 8 && a[..8] == b[..8]
    ensures DecodeSockAddr(a) == DecodeSockAddr(b)
  {
    assert forall i | 0 <= i < 8 :: a[i] == a[..8][i] && b[i] == b[..8][i];
  }

  /** Two connects leave equal records exactly when they ask for the same endpoint. */
  lemma RecordIsFaithful(c1: Call, c2: Call)
    ensures Record(c1) == Record(c2) <==> Wanted(c1) == Wanted(c2)
  {
    ByteOrderRoundTrip(c1, AF_INET_WORD);
    ByteOrderRoundTrip(c2, AF_INET_WORD);
    BytesWord(c1.userIp4);
    BytesWord(c2.userIp4);
  }

  // ---------------------------------------------------------------- configuration

  /** connection.ToInt on a dotted address. */
  function ToInt(e: Endpoint): u32 {
    Word(e.d, e.c, e.b, e.a)
  }

  /** The part of LoadEPF that fills the configuration; conversions keep low bits only. */
  function LoadConfig(proxy: Endpoint, proxyPort: int, pid: u64, network: Endpoint, prefixLength: int,
                      tunnel: bool): Config {
    Config(ToInt(proxy), proxyPort % 0x1_0000, pid, ToInt(network), prefixLength % 0x100, if tunnel then 1 else 0)
  }

  /** The destination that a redirecting connect hook writes is the configured proxy. */
  lemma RedirectLeadsToProxy(call: Call, proxy: Endpoint, conf: Config)
    requires conf.proxyAddr == ToInt(proxy) && conf.proxyPort == proxy.port
    ensures Wanted(call.(userIp4 := Swap32(conf.proxyAddr), userPort := Swap32(conf.proxyPort * 0x1_0000))) == proxy
  {
    StoredAddress(proxy);
    StoredPort(proxy.port);
  }

  /** What a configuration that was loaded from the command line makes of a connect: redirected, it
      goes to the configured proxy; and a network written with whole octets, as in 10.244.0.0/16,
      means the addresses that begin with them. Only the low byte of the prefix length counts. */
  lemma LoadedConfigMeans(call: Call, proxy: Endpoint, proxyPort: int, pid: u64, network: Endpoint,
                          prefixLength: int, tunnel: bool, shiftedOut: u32)
    ensures var conf := LoadConfig(proxy, proxyPort, pid, network, prefixLength, tunnel);
            var wanted := Wanted(call);
            && conf.proxyPid == pid && (conf.tunnel == 1 <==> tunnel)
            && Wanted(call.(userIp4 := Swap32(conf.proxyAddr), userPort := Swap32(conf.proxyPort * 0x1_0000))) ==
               proxy.(port := proxyPort % 0x1_0000)
            && (prefixLength % 0x100 == 8 && network.b == network.c == network.d == 0 ==>
                  (InPod(conf, shiftedOut, HostAddress(call)) <==> wanted.a == network.a))
            && (prefixLength % 0x100 == 16 && network.c == network.d == 0 ==>
                  (InPod(conf, shiftedOut, HostAddress(call)) <==> wanted.a == network.a && wanted.b == network.b))
            && (prefixLength % 0x100 == 24 && network.d == 0 ==>
                  (InPod(conf, shiftedOut, HostAddress(call)) <==>
                     wanted.a == network.a && wanted.b == network.b && wanted.c == network.c))
            && (prefixLength % 0x100 == 32 ==>
                  (InPod(conf, shiftedOut, HostAddress(call)) <==> wanted == network.(port := wanted.port)))
  {
    var conf := LoadConfig(proxy, proxyPort, pid, network, prefixLength, tunnel);
    RedirectLeadsToProxy(call, proxy.(port := proxyPort % 0x1_0000), conf);
    OctetsInPod(conf, shiftedOut, Wanted(call), network);
  }

  lemma OctetsInPod(conf: Config, shiftedOut: u32, e: Endpoint, network: Endpoint)
    requires conf.podCidr == ToInt(network)
    ensures conf.podPrefixLength == 8 && network.b == network.c == network.d == 0 ==>
              (InPod(conf, shiftedOut, ToInt(e)) <==> e.a == network.a)
    ensures conf.podPrefixLength == 16 && network.c == network.d == 0 ==>
              (InPod(conf, shiftedOut, ToInt(e)) <==> e.a == network.a && e.b == network.b)
    ensures conf.podPrefixLength == 24 && network.d == 0 ==>
              (InPod(conf, shiftedOut, ToInt(e)) <==> e.a == network.a && e.b == network.b && e.c == network.c)
    ensures conf.podPrefixLength == 32 ==>
              (InPod(conf, shiftedOut, ToInt(e)) <==> e == network.(port := e.port))
  {
    if conf.podPrefixLength == 8 {
      FirstOctetInPod(conf, shiftedOut, e, network);
    } else if conf.podPrefixLength == 16 {
      TwoOctetsInPod(conf, shiftedOut, e, network);
    } else if conf.podPrefixLength == 24 {
      ThreeOctetsInPod(conf, shiftedOut, e, network);
    } else if conf.podPrefixLength == 32 {
      AddressInPod(conf, shiftedOut, e, network);
    }
  }

  lemma AddressInPod(conf: Config, shiftedOut: u32, e: Endpoint, network: Endpoint)
    requires conf.podCidr == ToInt(network) && conf.podPrefixLength == 32
    ensures InPod(conf, shiftedOut, ToInt(e)) <==> e == network.(port := e.port)
  {
    if ToInt(e) == ToInt(network) {
      WordBytes(e.d, e.c, e.b, e.a);
      WordBytes(network.d, network.c, network.b, network.a);
    }
  }

  lemma FirstOctetInPod(conf: Config, shiftedOut: u32, e: Endpoint, network: Endpoint)
    requires conf.podCidr == ToInt(network) && conf.podPrefixLength == 8
    ensures network.b == network.c == network.d == 0 ==>
              (InPod(conf, shiftedOut, ToInt(e)) <==> e.a == network.a)
  {
    assert Pow2(8) == 0x100;
    assert Pow2(16) == 0x1_0000;
    assert Pow2(24) == 0x100_0000;
  }

  lemma TwoOctetsInPod(conf: Config, shiftedOut: u32, e: Endpoint, network: Endpoint)
    requires conf.podCidr == ToInt(network) && conf.podPrefixLength == 16
    ensures network.c == network.d == 0 ==>
              (InPod(conf, shiftedOut, ToInt(e)) <==> e.a == network.a && e.b == network.b)
  {
    assert Pow2(8) == 0x100;
    assert Pow2(16) == 0x1_0000;
  }

  lemma ThreeOctetsInPod(conf: Config, shiftedOut: u32, e: Endpoint, network: Endpoint)
    requires conf.podCidr == ToInt(network) && conf.podPrefixLength == 24
    ensures network.d == 0 ==>
              (InPod(conf, shiftedOut, ToInt(e)) <==> e.a == network.a && e.b == network.b && e.c == network.c)
  {
    assert Pow2(32 - 24) == 0x100;
    ThreeOctets(e.a, e.b, e.c, e.d, network.a, network.b, network.c);
  }

  lemma ThreeOctets(a: byte, b: byte, c: byte, d: byte, a': byte, b': byte, c': byte)
    ensures Word(0, c', b', a') % 0x100 == 0
    ensures Word(0, c', b', a') <= Word(d, c, b, a) < Word(0, c', b', a') + 0x100 <==> a == a' && b == b' && c == c'
  {
    var x, y := Word(c, b, a, 0), Word(c', b', a', 0);
    assert Word(d, c, b, a) == 0x100 * x + d && Word(0, c', b', a') == 0x100 * y;
    if x == y {
      WordBytes(c, b, a, 0);
      WordBytes(c', b', a', 0);
    }
  }

  lemma StoredAddress(e: Endpoint)
    ensures var ip := Swap32(ToInt(e)); Byte0(ip) == e.a && Byte1(ip) == e.b && Byte2(ip) == e.c && Byte3(ip) == e.d
  {
    SwapWord(e.d, e.c, e.b, e.a);
    WordBytes(e.a, e.b, e.c, e.d);
  }

  // ---------------------------------------------------------------- what the hooks do, in plain numbers

  /** The octets of the address in the sockaddr, as one number. */
  function AddressNumber(userIp4: u32): nat {
    userIp4 % 0x100 * 0x100_0000 + userIp4 / 0x100 % 0x100 * 0x1_0000
    + userIp4 / 0x1_0000 % 0x100 * 0x100 + userIp4 / 0x100_0000
  }

  lemma HostAddressIs(call: Call)
    ensures HostAddress(call) == AddressNumber(call.userIp4)
  {
    assert call.userIp4 / 0x100 / 0x100 == call.userIp4 / 0x1_0000;
    assert call.userIp4 / 0x100 / 0x100 / 0x100 == call.userIp4 / 0x100_0000;
  }

  lemma WantedPortIs(call: Call)
    ensures Wanted(call).port == call.userPort % 0x100 * 0x100 + call.userPort / 0x100 % 0x100
  {
  }

  /** Which connects are redirected: TCP over IPv4, to an address of the block and a port that is not
      exempt, by a process of the pod other than the proxy. In tunnel mode any process but the proxy
      will do; otherwise the process must be in the table of the pod's processes. */
  lemma RedirectsExactlyWhen(host: Host, call: Call)
    ensures Redirects(host, call) <==>
              && call.family == 2 && call.protocol == 6 && host.conf.Some?
              && var conf, addr := host.conf.value, AddressNumber(call.userIp4);
                 && (if 1 <= conf.podPrefixLength <= 32 then
                       var size := Pow2(32 - conf.podPrefixLength);
                       conf.podCidr % size == 0 && conf.podCidr <= addr < conf.podCidr + size
                     else And(addr, host.shiftedOut) == conf.podCidr)
                 && (if conf.tunnel == 1 then call.tgid != conf.proxyPid
                     else
                       && call.nsPid in host.pids
                       && call.nsPid + (if call.nsPid < 0x8000_0000 then 0 else 0xFFFF_FFFF_0000_0000) != conf.proxyPid)
                 && call.userPort % 0x100 * 0x100 + call.userPort / 0x100 % 0x100 !in {8080, 8181, 18000, 18001}
  {
    HostAddressIs(call);
    WantedPortIs(call);
    RedirectsIn(host, call, AddressNumber(call.userIp4), Wanted(call).port);
  }

  lemma RedirectsIn(host: Host, call: Call, addr: u32, port: u16)
    requires HostAddress(call) == addr && Wanted(call).port == port
    ensures Redirects(host, call) <==>
              && call.family == 2 && call.protocol == 6 && host.conf.Some?
              && InPod(host.conf.value, host.shiftedOut, addr)
              && (if host.conf.value.tunnel == 1 then call.tgid != host.conf.value.proxyPid
                  else
                    && call.nsPid in host.pids
                    && call.nsPid + (if call.nsPid < 0x8000_0000 then 0 else 0xFFFF_FFFF_0000_0000)
                       != host.conf.value.proxyPid)
              && port !in {8080, 8181, 18000, 18001}
  {
  }

  /** What a connect leaves in the tables: a redirected one its address and port under the low half of
      its cookie, if that is there already or fewer than 20000 are. */
  lemma ConnectEffect(host: Host, t: Tables, cookie: Cookie, call: Call)
    ensures AfterConnect(host, t, cookie, call) ==
            if Redirects(host, call) && (cookie.low in t.socks || |t.socks| < 20000) then
              Tables(t.socks[cookie.low := Socket(0, AddressNumber(call.userIp4), 0, Wanted(call).port)], t.ports)
            else t
  {
    HostAddressIs(call);
  }

  /** What a socket operation leaves: an active establishment (4) over IPv4 (2) of a socket on record, its
      cookie under the local port, if that is there already or fewer than 20000 are. */
  lemma SockOpEffect(t: Tables, cookie: Cookie, family: nat, op: nat, localPort: u16)
    ensures AfterSockOp(t, cookie, family, op, localPort) ==
            if family == 2 && op == 4 && cookie.low in t.socks && (localPort in t.ports || |t.ports| < 20000) then
              Tables(t.socks, t.ports[localPort := cookie])
            else t
  {
  }

  /** What a query writes: family 2 in the machine's order, then port and address in network order. */
  lemma SockAddrIs(sock: Socket)
    ensures SockAddrBytes(AF_INET_WORD, sock) ==
            [2, 0, sock.dstPort / 0x100, sock.dstPort % 0x100] +
            [sock.dstAddr / 0x100_0000, sock.dstAddr / 0x1_0000 % 0x100, sock.dstAddr / 0x100 % 0x100,
             sock.dstAddr % 0x100]
  {
    var x := sock.dstAddr;
    assert x / 0x100 / 0x100 == x / 0x1_0000 && x / 0x100 / 0x100 / 0x100 == x / 0x100_0000;
    WordBytes(Byte3(x), Byte2(x), Byte1(x), Byte0(x));
    assert Swap16(sock.dstPort) % 0x100 == sock.dstPort / 0x100;
    assert Swap16(sock.dstPort) / 0x100 == sock.dstPort % 0x100;
  }

  /** What the gateway learns: the address and port on record under the cookie of the port. */
  lemma AnswerIs(t: Tables, clientPort: u16)
    ensures Answer(t, clientPort) ==
            if clientPort in t.ports && t.ports[clientPort].low in t.socks then
              var sock := t.socks[t.ports[clientPort].low];
              Some(Endpoint(sock.dstAddr / 0x100_0000, sock.dstAddr / 0x1_0000 % 0x100, sock.dstAddr / 0x100 % 0x100,
                            sock.dstAddr % 0x100, sock.dstPort))
            else None
  {
    if clientPort in t.ports && t.ports[clientPort].low in t.socks {
      SockAddrIs(t.socks[t.ports[clientPort].low]);
    }
  }

  // ---------------------------------------------------------------- the hooks

  /** struct bpf_sock_addr: the two destination fields are rewritten in place. */
  class SockAddrContext {
    const userFamily: nat
    const protocol: nat
    var userIp4: u32
    var userPort: u32

    constructor (userFamily: nat, protocol: nat, userIp4: u32, userPort: u32)
      ensures this.userFamily == userFamily && this.protocol == protocol
      ensures this.userIp4 == userIp4 && this.userPort == userPort
    {
      this.userFamily, this.protocol := userFamily, protocol;
      this.userIp4, this.userPort := userIp4, userPort;
    }

    function AsCall(tgid: u64, nsPid: u32): Call
      reads this
    {
      Call(userFamily, protocol, userIp4, userPort, tgid, nsPid)
    }
  }

  /** struct bpf_sockopt: `optval` is the caller's buffer. */
  class SockOptContext {
    const optname: nat
    const family: u16
    const protocol: nat
    const peerPort: u16 // sk->dst_port, in network order
    const optval: array<byte>
    var optlen: nat
    var retval: int

    constructor (optname: nat, family: u16, protocol: nat, peerPort: u16, optval: array<byte>, optlen: nat, retval: int)
      ensures this.optname == optname && this.family == family && this.protocol == protocol
      ensures this.peerPort == peerPort && this.optval == optval
      ensures this.optlen == optlen && this.retval == retval
    {
      this.optname, this.family, this.protocol := optname, family, protocol;
      this.peerPort, this.optval := peerPort, optval;
      this.optlen, this.retval := optlen, retval;
    }

    /** The query the proxy makes, with a buffer that holds a sockaddr_in. */
    predicate IsQuery()
      reads this
      ensures IsQuery() <==> optname == 80 && family == 2 && protocol == 6
    {
      optname == SO_ORIGINAL_DST && family == AF_INET_WORD && protocol == IPPROTO_TCP
    }
  }

  class Hooks {
    const host: Host
    var socks: map<u32, Socket>
    var ports: map<u16, Cookie>

    constructor (host: Host)
      ensures this.host == host && AsTables() == Tables(map[], map[])
    {
      this.host := host;
      socks, ports := map[], map[];
    }

    function AsTables(): Tables
      reads this
    {
      Tables(socks, ports)
    }

    /** cgroup/connect4 */
    method Connect4(ctx: SockAddrContext, cookie: Cookie, tgid: u64, nsPid: u32) returns (verdict: int)
      modifies `socks, ctx
      ensures verdict == 1
      ensures AsTables() == AfterConnect(host, old(AsTables()), cookie, old(ctx.AsCall(tgid, nsPid)))
      ensures !Redirects(host, old(ctx.AsCall(tgid, nsPid))) ==> unchanged(ctx)
      ensures Redirects(host, old(ctx.AsCall(tgid, nsPid))) ==>
                && ctx.userIp4 == Swap32(host.conf.value.proxyAddr)
                && ctx.userPort == Swap32(host.conf.value.proxyPort * 0x1_0000)
      ensures host.conf.Some? && host.conf.value.tunnel != 1 && nsPid !in host.pids ==>
                unchanged(ctx) && AsTables() == old(AsTables())
    {
      verdict := 1;
      if ctx.userFamily != AF_INET || ctx.protocol != IPPROTO_TCP || host.conf.None? {
        return;
      }
      var conf := host.conf.value;
      var dstAddr := Swap32(ctx.userIp4);
      if And(Swap32(ctx.userIp4), PodMask(conf.podPrefixLength, host.shiftedOut)) != conf.podCidr {
        MaskTest(conf, host.shiftedOut, dstAddr);
        return;
      }
      MaskTest(conf, host.shiftedOut, dstAddr);
      var dstPort := Swap32(ctx.userPort) / 0x1_0000;
      PortField(ctx.userPort);
      if conf.tunnel == 1 {
        if tgid == conf.proxyPid {
          return;
        }
      } else {
        if nsPid !in host.pids {
          return;
        }
        if SignExtend(nsPid) == conf.proxyPid {
          return;
        }
      }
      if dstPort == 8080 || dstPort == 8181 {
        return;
      }
      if dstPort == 18000 || dstPort == 18001 {
        return;
      }
      socks := Put(socks, cookie.low, Socket(0, dstAddr, 0, dstPort));
      ctx.userIp4 := Swap32(conf.proxyAddr);
      ctx.userPort := Swap32(conf.proxyPort * 0x1_0000);
    }

    /** sockops: `localPort` is the context's 32-bit field, stored in a 16-bit variable. */
    method SockOps(family: nat, op: nat, cookie: Cookie, localPort: u32) returns (verdict: int)
      modifies `ports
      ensures verdict == 0
      ensures AsTables() == AfterSockOp(old(AsTables()), cookie, family, op, localPort % 0x1_0000)
    {
      if family != AF_INET {
        return 0;
      }
      if op == ACTIVE_ESTABLISHED {
        if cookie.low in socks {
          var srcPort := Low16(localPort);
          ports := Put(ports, srcPort, cookie);
        }
      }
      return 0;
    }

    /** cgroup/getsockopt: answers in the caller's buffer, or leaves everything alone. */
    method SockOpt(ctx: SockOptContext) returns (verdict: int)
      modifies ctx, ctx.optval
      ensures verdict == 1
      ensures ctx.IsQuery() && Lookup(AsTables(), Swap16(ctx.peerPort)).Some?
              && ctx.optval.Length >= 16 ==>
                && ctx.retval == 0 && ctx.optlen == 16
                && ctx.optval[..8] == SockAddrBytes(AF_INET_WORD, Lookup(AsTables(), Swap16(ctx.peerPort)).value)
                && ctx.optval[8..] == old(ctx.optval[8..])
                && Answer(AsTables(), Swap16(ctx.peerPort)) == Some(DecodeSockAddr(ctx.optval[..]))
      ensures !(ctx.IsQuery() && Lookup(AsTables(), Swap16(ctx.peerPort)).Some?
                && ctx.optval.Length >= 16) ==>
                unchanged(ctx) && unchanged(ctx.optval)
    {
      verdict := 1;
      if ctx.optname != SO_ORIGINAL_DST || ctx.family != AF_INET_WORD || ctx.protocol != IPPROTO_TCP {
        return;
      }
      var srcPort := Swap16(ctx.peerPort);
      if srcPort !in ports {
        return;
      }
      var cookie := ports[srcPort];
      if cookie.low !in socks {
        return;
      }
      var sock := socks[cookie.low];
      if SIZEOF_SOCKADDR_IN > ctx.optval.Length {
        return;
      }
      ctx.optlen := SIZEOF_SOCKADDR_IN;
      var family := Memory16(ctx.family);
      var address := Memory32(Swap32(sock.dstAddr));
      var port := Memory16(Swap16(sock.dstPort));
      ctx.optval[0], ctx.optval[1] := family[0], family[1];
      ctx.optval[4], ctx.optval[5], ctx.optval[6], ctx.optval[7] := address[0], address[1], address[2], address[3];
      ctx.optval[2], ctx.optval[3] := port[0], port[1];
      ctx.retval := 0;
      assert ctx.optval[..8] == family + port + address;
      DecodeReadsPrefix(ctx.optval[..], family + port + address);
    }
  }

  /** `(-1) << (32 - prefixLength)` in C. */
  function PodMask(prefixLength: byte, shiftedOut: u32): u32 {
    if 1 <= prefixLength <= 32 then ShiftedOnes(32 - prefixLength) else shiftedOut
  }

  /** The mask test is a range test. */
  lemma MaskTest(conf: Config, shiftedOut: u32, addr: u32)
    ensures And(addr, PodMask(conf.podPrefixLength, shiftedOut)) == conf.podCidr <==> InPod(conf, shiftedOut, addr)
  {
    if 1 <= conf.podPrefixLength <= 32 {
      AndShiftedOnes(addr, 32 - conf.podPrefixLength);
      ClearedIsBlock(addr, conf.podCidr, Pow2(32 - conf.podPrefixLength));
    }
  }

  /** Prefix length 0, meant to accept every address, does so exactly when the undefined shift
      happened to produce an empty mask. */
  lemma ZeroPrefixAcceptsAll(conf: Config, shiftedOut: u32)
    requires conf.podPrefixLength == 0 && conf.podCidr == 0
    ensures (forall addr: u32 :: InPod(conf, shiftedOut, addr)) <==> shiftedOut == 0
  {
    AndSelf(shiftedOut);
    if shiftedOut == 0 {
      forall addr: u32 ensures InPod(conf, shiftedOut, addr) {
        AndZero(addr);
      }
    } else {
      assert !InPod(conf, shiftedOut, shiftedOut);
    }
  }
}
