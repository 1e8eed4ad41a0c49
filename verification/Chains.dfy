/** How far a connect can travel: which listener a dial reaches, which dial a listener makes of it,
    and for which configurations that ends after three dials. */
module Chains {
  import opened Words
  import opened ByteOrder
  import opened Mirrors
  import opened Redirection
  import opened Preamble
  import opened Relay
  import opened Traces

  datatype Address = Address(a: byte, b: byte, c: byte, d: byte)

  const ANY := Address(0, 0, 0, 0)
  const LOCALHOST := Address(127, 0, 0, 1)

  function Addr(e: Endpoint): Address {
    Address(e.a, e.b, e.c, e.d)
  }

  function At(addr: Address, port: u16): Endpoint {
    Endpoint(addr.a, addr.b, addr.c, addr.d, port)
  }

  /** Addresses that mean the pod in which they are dialled. */
  predicate IsLocal(addr: Address) {
    addr == ANY || addr.a == 127
  }

  /** A gateway: where its internal listener is bound, and what its hooks run against. */
  datatype Gateway = Gateway(address: Address, proxyPort: u16, host: Host)

  /** The gateways by the addresses of their pods. All use one cluster port, on which each listens
      at every address of its pod. */
  datatype Network = Network(gateways: map<Address, Gateway>, clusterPort: u16)

  /** A gateway that could start: both listeners bound, to ports of their own and an address of the
      pod, and the hooks configured with the internal one and the gateway's process id. */
  predicate ValidGateway(pod: Address, g: Gateway, clusterPort: u16) {
    && !IsLocal(pod) && (g.address == pod || IsLocal(g.address))
    && g.proxyPort != 0 && g.proxyPort != clusterPort
    && g.host.conf.Some?
    && g.host.conf.value.proxyAddr == ToInt(At(g.address, 0))
    && g.host.conf.value.proxyPort == g.proxyPort && g.host.conf.value.proxyPid < 0x8000_0000
  }

  predicate Valid(net: Network) {
    forall pod | pod in net.gateways :: ValidGateway(pod, net.gateways[pod], net.clusterPort)
  }

  // ---------------------------------------------------------------- what a dial reaches

  datatype Acceptor = Internal(pod: Address) | External(pod: Address) | Elsewhere

  /** The pod that an address means when dialled in `pod`. */
  function Owner(pod: Address, addr: Address): Address {
    if IsLocal(addr) then pod else addr
  }

  /** An internal listener takes connections to the address it is bound to; dialled, 0.0.0.0 is
      another name of 127.0.0.1. */
  predicate ListensAt(g: Gateway, addr: Address) {
    g.address == ANY || g.address == addr || (addr == ANY && g.address == LOCALHOST)
  }

  function Accepts(net: Network, pod: Address, target: Endpoint): Acceptor {
    var owner := Owner(pod, Addr(target));
    if owner !in net.gateways then Elsewhere
    else if target.port == net.clusterPort then External(owner)
    else if target.port == net.gateways[owner].proxyPort && ListensAt(net.gateways[owner], Addr(target)) then
      Internal(owner)
    else Elsewhere
  }

  /** The endpoint that the hook leaves in the context. */
  function Rewritten(host: Host, call: Call): Endpoint {
    if Redirects(host, call) then
      var conf := host.conf.value;
      Wanted(call.(userIp4 := Swap32(conf.proxyAddr), userPort := Swap32(conf.proxyPort * 0x1_0000)))
    else Wanted(call)
  }

  /** A connect in a pod, to the endpoint that the hook left in its context, and the bytes it brings:
      those sent at once, and those that wait for a reply. */
  datatype Leg = Leg(pod: Address, dialled: Endpoint, sourcePort: u16, ready: seq<byte>, rest: seq<byte>)

  ghost predicate IsRedirected(host: Host, dialled: Endpoint) {
    match host.conf
    case Some(_) => exists call :: Redirects(host, call) && dialled == Rewritten(host, call)
    case None => false
  }

  /** A connect of the gateway's process that asks for `target`. */
  ghost predicate IsByProxy(host: Host, target: Endpoint, dialled: Endpoint) {
    match host.conf
    case Some(conf) =>
      exists call :: FromProxy(conf, call) && Wanted(call) == target && dialled == Rewritten(host, call)
    case None => false
  }

  /** The hook leaves the gateway's own connects alone. */
  lemma ProxyIsNotRedirected(host: Host, target: Endpoint, dialled: Endpoint)
    requires IsByProxy(host, target, dialled)
    ensures dialled == target
  {
  }

  /** Any other connect that it takes goes to the internal listener. */
  lemma RedirectedGoesToProxy(pod: Address, g: Gateway, clusterPort: u16, dialled: Endpoint)
    requires ValidGateway(pod, g, clusterPort) && IsRedirected(g.host, dialled)
    ensures dialled == At(g.address, g.proxyPort)
  {
    var call :| Redirects(g.host, call) && dialled == Rewritten(g.host, call);
    RedirectLeadsToProxy(call, At(g.address, g.proxyPort), g.host.conf.value);
  }

  function Accepted(net: Network, leg: Leg): Acceptor {
    Accepts(net, leg.pod, leg.dialled)
  }

  // ---------------------------------------------------------------- what a listener dials

  /** What the hooks of each pod went through so far. */
  type Histories = map<Address, seq<Event>>

  function TablesAt(net: Network, histories: Histories, pod: Address): Tables
    requires pod in net.gateways
  {
    if pod in histories then Run(net.gateways[pod].host, histories[pod]).tables else EMPTY.tables
  }

  /** internalProxy: the target found under the client's port is dialled at the cluster port, and
      named before the client's bytes. */
  ghost predicate NearDials(net: Network, histories: Histories, l1: Leg, l2: Leg) {
    && l2.pod in net.gateways
    && match Answer(TablesAt(net, histories, l2.pod), l1.sourcePort)
       case Some(target) =>
         && IsByProxy(net.gateways[l2.pod].host, target.(port := net.clusterPort), l2.dialled)
         && l2.ready == Print(target) && l2.rest == l1.ready + l1.rest
       case None => false
  }

  /** handleExternalConnection: what a read of n bytes names is dialled, unless it is the gateway's
      own internal address; the bytes behind it follow. */
  ghost predicate FarDials(net: Network, l1: Leg, l2: Leg, n: nat) {
    && l2.pod in net.gateways
    && 1 <= n <= |l1.ready| && n <= TMP_SIZE
    && var g := net.gateways[l2.pod];
       && l1.ready[..n] != Print(At(g.address, g.proxyPort))
       && Parse(l1.ready[..n]).Some? && IsByProxy(g.host, Parse(l1.ready[..n]).value, l2.dialled)
       && l2.ready == l1.ready[n..] + l1.rest && l2.rest == []
  }

  /** A dial of `l2` because of `l1`. */
  ghost predicate Causes(net: Network, histories: Histories, l1: Leg, l2: Leg) {
    match Accepted(net, l1)
    case Internal(pod) => l2.pod == pod && NearDials(net, histories, l1, l2)
    case External(pod) => l2.pod == pod && exists n: nat :: FarDials(net, l1, l2, n)
    case Elsewhere => false
  }

  ghost function Causing(net: Network, histories: Histories): (Leg, Leg) -> bool {
    (l1, l2) => Causes(net, histories, l1, l2)
  }

  /** Dials that start with a connect in the pod to the endpoint, whoever makes it. */
  ghost predicate ChainFrom(net: Network, histories: Histories, pod: Address, dialled: Endpoint, legs: seq<Leg>) {
    && legs != [] && legs[0].pod == pod && legs[0].dialled == dialled
    && IsTrace(Causing(net, histories), legs)
  }

  /** Dials that start with a redirected connect. */
  ghost predicate Chain(net: Network, histories: Histories, legs: seq<Leg>) {
    && legs != [] && legs[0].pod in net.gateways
    && IsRedirected(net.gateways[legs[0].pod].host, legs[0].dialled)
    && IsTrace(Causing(net, histories), legs)
  }

  // ---------------------------------------------------------------- safe configurations

  ghost predicate CanRedirect(host: Host) {
    exists call :: Redirects(host, call)
  }

  ghost predicate CanRedirectTo(host: Host, addr: Address) {
    exists call :: Redirects(host, call) && Addr(Wanted(call)) == addr
  }

  /** The internal listener takes connections under an address that the loopback check does not
      know. */
  predicate HasAlias(g: Gateway, addr: Address) {
    ListensAt(g, addr) && addr != g.address
  }

  /** No pod redirects connects to the cluster port of a gateway, nor to a proxy port by an alias. */
  ghost predicate SafePair(net: Network, pod: Address, addr: Address)
    requires Owner(pod, addr) in net.gateways
  {
    var far := net.gateways[Owner(pod, addr)];
    && net.clusterPort in EXEMPT_PORTS
    && (HasAlias(far, addr) && CanRedirect(far.host) ==> far.proxyPort in EXEMPT_PORTS)
  }

  /** Whatever the tables of the pod lead its gateway to. */
  ghost predicate SafeAt(net: Network, pod: Address)
    requires pod in net.gateways
  {
    forall addr | CanRedirectTo(net.gateways[pod].host, addr) && Owner(pod, addr) in net.gateways ::
      SafePair(net, pod, addr)
  }

  ghost predicate Safe(net: Network) {
    forall pod | pod in net.gateways :: SafeAt(net, pod)
  }

  // ---------------------------------------------------------------- safe chains are short

  /** The target may have been asked for in the pod. */
  ghost predicate AskedFor(host: Host, target: Endpoint) {
    exists call :: Redirects(host, call) && Wanted(call) == target
  }

  lemma AnswersWereAskedFor(host: Host, events: seq<Event>, port: u16)
    requires Answer(Run(host, events).tables, port).Some?
    ensures AskedFor(host, Answer(Run(host, events).tables, port).value)
  {
    var t := Run(host, events).tables;
    var key := t.ports[port].low;
    RecordsHaveSources(host, events, key);
    var i :| 0 <= i < |events| && StoredBy(host, events[i], key, t.socks[key]);
    ByteOrderRoundTrip(events[i].call, AF_INET_WORD);
  }

  lemma TableAnswersWereAskedFor(net: Network, histories: Histories, pod: Address, port: u16)
    requires pod in net.gateways && Answer(TablesAt(net, histories, pod), port).Some?
    ensures AskedFor(net.gateways[pod].host, Answer(TablesAt(net, histories, pod), port).value)
  {
    if pod in histories {
      AnswersWereAskedFor(net.gateways[pod].host, histories[pod], port);
    }
  }

  /** How many more dials a leg can cause: 2 for a connect that reaches the pod's internal listener,
      redirected or not, 1 for its gateway's dial, 0 for the far gateway's. */
  ghost predicate HasRank(net: Network, pod: Address, leg: Leg, rank: nat)
    requires pod in net.gateways
  {
    match rank
    case 2 => Accepted(net, leg) == Internal(pod)
    case 1 => exists target :: IsNearLeg(net, pod, leg, target)
    case 0 => leg.pod in net.gateways && exists target, n: nat :: IsFarLeg(net, pod, leg, target, n)
    case _ => false
  }

  ghost predicate IsNearLeg(net: Network, pod: Address, leg: Leg, target: Endpoint)
    requires pod in net.gateways
  {
    && leg.pod == pod && AskedFor(net.gateways[pod].host, target)
    && leg.dialled == target.(port := net.clusterPort) && leg.ready == Print(target)
  }

  ghost predicate IsFarLeg(net: Network, pod: Address, leg: Leg, target: Endpoint, n: nat)
    requires pod in net.gateways && leg.pod in net.gateways
  {
    && AskedFor(net.gateways[pod].host, target) && leg.pod == Owner(pod, Addr(target))
    && n <= |Print(target)| && Parse(Print(target)[..n]) == Some(leg.dialled)
    && Print(target)[..n] != Print(At(net.gateways[leg.pod].address, net.gateways[leg.pod].proxyPort))
  }

  /** A redirected connect reaches the internal listener of its own pod. */
  lemma RedirectedReachesOwnGateway(net: Network, leg: Leg)
    requires Valid(net) && leg.pod in net.gateways && IsRedirected(net.gateways[leg.pod].host, leg.dialled)
    ensures Accepted(net, leg) == Internal(leg.pod)
  {
    assert ValidGateway(leg.pod, net.gateways[leg.pod], net.clusterPort);
    RedirectedGoesToProxy(leg.pod, net.gateways[leg.pod], net.clusterPort, leg.dialled);
  }

  lemma NearLegFollows(net: Network, histories: Histories, pod: Address, l1: Leg, l2: Leg)
    requires pod in net.gateways && HasRank(net, pod, l1, 2) && Causes(net, histories, l1, l2)
    ensures HasRank(net, pod, l2, 1)
  {
    TableAnswersWereAskedFor(net, histories, pod, l1.sourcePort);
    var target := Answer(TablesAt(net, histories, pod), l1.sourcePort).value;
    ProxyIsNotRedirected(net.gateways[pod].host, target.(port := net.clusterPort), l2.dialled);
    assert IsNearLeg(net, pod, l2, target);
  }

  lemma FarLegFollows(net: Network, histories: Histories, pod: Address, l1: Leg, l2: Leg)
    requires pod in net.gateways && HasRank(net, pod, l1, 1) && Causes(net, histories, l1, l2)
    ensures HasRank(net, pod, l2, 0)
  {
    var target :| IsNearLeg(net, pod, l1, target);
    assert Accepted(net, l1) == External(Owner(pod, Addr(target)));
    var n: nat :| FarDials(net, l1, l2, n);
    ProxyIsNotRedirected(net.gateways[l2.pod].host, Parse(l1.ready[..n]).value, l2.dialled);
    assert IsFarLeg(net, pod, l2, target, n);
  }

  /** The far gateway dials an address that was asked for, no exempt port, and not its own listener
      under the name it knows. */
  lemma FarTarget(net: Network, pod: Address, leg: Leg, target: Endpoint, n: nat)
    requires pod in net.gateways && leg.pod in net.gateways && IsFarLeg(net, pod, leg, target, n)
    requires net.gateways[leg.pod].proxyPort != 0
    ensures Addr(leg.dialled) == Addr(target)
    ensures leg.dialled.port !in EXEMPT_PORTS
    ensures leg.dialled != At(net.gateways[leg.pod].address, net.gateways[leg.pod].proxyPort)
    ensures CanRedirectTo(net.gateways[pod].host, Addr(target))
    ensures Owner(leg.pod, Addr(target)) == Owner(pod, Addr(target)) == leg.pod
  {
    TruncatedPreamble(target, n);
  }

  lemma FarTargetIsElsewhere(net: Network, pod: Address, leg: Leg, target: Endpoint, n: nat)
    requires Valid(net) && pod in net.gateways && SafeAt(net, pod)
    requires leg.pod in net.gateways && IsFarLeg(net, pod, leg, target, n)
    ensures Accepted(net, leg) == Elsewhere ||
            (Accepted(net, leg) == Internal(leg.pod) && !CanRedirect(net.gateways[leg.pod].host))
  {
    assert ValidGateway(leg.pod, net.gateways[leg.pod], net.clusterPort);
    FarTarget(net, pod, leg, target, n);
    assert SafePair(net, pod, Addr(target));
  }

  lemma NothingFollows(net: Network, histories: Histories, pod: Address, l1: Leg, l2: Leg)
    requires Valid(net) && pod in net.gateways && SafeAt(net, pod) && HasRank(net, pod, l1, 0)
    ensures !Causes(net, histories, l1, l2)
  {
    var target, n: nat :| IsFarLeg(net, pod, l1, target, n);
    FarTargetIsElsewhere(net, pod, l1, target, n);
    if Causes(net, histories, l1, l2) {
      TableAnswersWereAskedFor(net, histories, l1.pod, l1.sourcePort);
    }
  }

  /** From a safe pod's internal listener on, each dial has a smaller rank than the one that caused it. */
  lemma RankDecreases(net: Network, histories: Histories, pod: Address, l1: Leg, l2: Leg, rank: nat)
    requires Valid(net) && pod in net.gateways && SafeAt(net, pod)
    requires HasRank(net, pod, l1, rank) && Causes(net, histories, l1, l2)
    ensures rank > 0 && HasRank(net, pod, l2, rank - 1)
  {
    if rank == 2 {
      NearLegFollows(net, histories, pod, l1, l2);
    } else if rank == 1 {
      FarLegFollows(net, histories, pod, l1, l2);
    } else {
      NothingFollows(net, histories, pod, l1, l2);
    }
  }

  lemma {:induction false} RankBounds(net: Network, histories: Histories, pod: Address, legs: seq<Leg>, rank: nat)
    requires Valid(net) && pod in net.gateways && SafeAt(net, pod)
    requires legs != [] && HasRank(net, pod, legs[0], rank) && IsTrace(Causing(net, histories), legs)
    ensures |legs| <= rank + 1
    decreases rank
  {
    if |legs| > 1 {
      Rest(Causing(net, histories), legs);
      RankDecreases(net, histories, pod, legs[0], legs[1], rank);
      RankBounds(net, histories, pod, legs[1..], rank - 1);
    }
  }

  /** A connect that no gateway accepts causes no dial, and one that a safe pod's internal listener
      accepts causes two, whatever the hooks went through, the source ports, the bytes sent and the
      sizes of reads. */
  lemma BoundedChain(net: Network, histories: Histories, pod: Address, dialled: Endpoint, legs: seq<Leg>)
    requires Valid(net) && ChainFrom(net, histories, pod, dialled, legs)
    requires match Accepts(net, pod, dialled)
             case Internal(near) => SafeAt(net, near)
             case External(_) => false
             case Elsewhere => true
    ensures |legs| <= 3
  {
    match Accepts(net, pod, dialled)
    case Internal(near) => RankBounds(net, histories, near, legs, 2);
    case Elsewhere =>
      if |legs| > 1 {
        Rest(Causing(net, histories), legs);
      }
  }

  /** In a safe network no redirected connect causes more than three dials, its own included. */
  lemma ChainsAreShort(net: Network, histories: Histories, legs: seq<Leg>)
    requires Valid(net) && Safe(net) && Chain(net, histories, legs)
    ensures |legs| <= 3
  {
    RedirectedReachesOwnGateway(net, legs[0]);
    BoundedChain(net, histories, legs[0].pod, legs[0].dialled, legs);
  }

  // ---------------------------------------------------------------- unsafe chains are not

  /** A dial by the gateway's process. */
  function GatewayCall(pid: u32, target: Endpoint): Call {
    Call(AF_INET, IPPROTO_TCP, Word(target.a, target.b, target.c, target.d), Swap32(target.port * 0x1_0000), pid, pid)
  }

  lemma GatewayCanDial(pod: Address, g: Gateway, clusterPort: u16, target: Endpoint)
    requires ValidGateway(pod, g, clusterPort)
    ensures IsByProxy(g.host, target, target)
  {
    var call := GatewayCall(g.host.conf.value.proxyPid, target);
    WordBytes(target.a, target.b, target.c, target.d);
    StoredPort(target.port);
    assert FromProxy(g.host.conf.value, call) && Wanted(call) == target;
  }

  /** The same connect to another port. */
  function WithPort(call: Call, port: u16): Call {
    call.(userPort := Swap32(port * 0x1_0000))
  }

  lemma AnyOtherPort(host: Host, call: Call, port: u16)
    requires Redirects(host, call) && port !in EXEMPT_PORTS
    ensures Redirects(host, WithPort(call, port)) && Wanted(WithPort(call, port)) == Wanted(call).(port := port)
  {
    StoredPort(port);
  }

  const SOMEONE := Cookie(1, 0)

  /** One redirected connect, established at port 1. */
  function OneConnection(call: Call): seq<Event> {
    [Connect(SOMEONE, call)] + [SockOp(SOMEONE, AF_INET, ACTIVE_ESTABLISHED, 1)]
  }

  lemma OneConnectionAnswers(host: Host, call: Call)
    requires Redirects(host, call)
    ensures GoodRun(host, OneConnection(call), {SOMEONE})
    ensures Answer(Run(host, OneConnection(call)).tables, 1) == Some(Wanted(call))
  {
    var connect := Connect(SOMEONE, call);
    Extend(host, [], connect, {SOMEONE});
    assert [] + [connect] == [connect];
    Extend(host, [connect], SockOp(SOMEONE, AF_INET, ACTIVE_ESTABLISHED, 1), {SOMEONE});
    ByteOrderRoundTrip(call, AF_INET_WORD);
  }

  /** Histories that the kernel permits, with cookies distinct in their low halves. */
  ghost predicate Permitted(net: Network, histories: Histories) {
    forall pod | pod in histories && pod in net.gateways :: IsGoodHistory(net.gateways[pod].host, histories[pod])
  }

  ghost predicate IsGoodHistory(host: Host, events: seq<Event>) {
    exists cookies :: GoodRun(host, events, cookies)
  }

  /** The near gateway dials what the tables answer. */
  lemma NearCauses(net: Network, histories: Histories, l1: Leg, target: Endpoint) returns (l2: Leg)
    requires Valid(net) && Accepted(net, l1).Internal? && Accepted(net, l1).pod in net.gateways
    requires Answer(TablesAt(net, histories, Accepted(net, l1).pod), l1.sourcePort) == Some(target)
    ensures Causes(net, histories, l1, l2)
    ensures l2 == Leg(Accepted(net, l1).pod, target.(port := net.clusterPort), 2, Print(target), l1.ready + l1.rest)
  {
    var pod := Accepted(net, l1).pod;
    assert ValidGateway(pod, net.gateways[pod], net.clusterPort);
    GatewayCanDial(pod, net.gateways[pod], net.clusterPort, target.(port := net.clusterPort));
    l2 := Leg(pod, target.(port := net.clusterPort), 2, Print(target), l1.ready + l1.rest);
  }

  /** A far gateway that reads exactly the name of another endpoint dials it. */
  lemma FarCauses(net: Network, histories: Histories, l1: Leg, target: Endpoint, sourcePort: u16) returns (l2: Leg)
    requires Valid(net) && Accepted(net, l1).External? && Accepted(net, l1).pod in net.gateways
    requires Print(target) <= l1.ready
    requires var g := net.gateways[Accepted(net, l1).pod]; target != At(g.address, g.proxyPort)
    ensures Causes(net, histories, l1, l2)
    ensures l2 == Leg(Accepted(net, l1).pod, target, sourcePort, l1.ready[|Print(target)|..] + l1.rest, [])
  {
    var pod := Accepted(net, l1).pod;
    var g := net.gateways[pod];
    assert ValidGateway(pod, g, net.clusterPort);
    GatewayCanDial(pod, g, net.clusterPort, target);
    ParsePrint(target);
    PrintFits(target);
    PrintIsInjective(target, At(g.address, g.proxyPort));
    assert l1.ready[..|Print(target)|] == Print(target);
    l2 := Leg(pod, target, sourcePort, l1.ready[|Print(target)|..] + l1.rest, []);
    assert FarDials(net, l1, l2, |Print(target)|);
  }

  lemma ThirdLeg(net: Network, histories: Histories, pod: Address, target: Endpoint, l2: Leg) returns (l3: Leg)
    requires Valid(net) && Owner(pod, Addr(target)) in net.gateways
    requires var far := net.gateways[Owner(pod, Addr(target))]; At(far.address, far.proxyPort) != target
    requires l2 == Leg(pod, target.(port := net.clusterPort), 2, Print(target), l2.rest)
    ensures Causes(net, histories, l2, l3)
    ensures l3 == Leg(Owner(pod, Addr(target)), target, 1, l2.rest, [])
  {
    l3 := FarCauses(net, histories, l2, target, 1);
  }

  /** The first three dials for a connect that reaches the pod's internal listener from port 1, where
      the gateway finds the request of `call`. */
  lemma FirstLegs(net: Network, histories: Histories, first: Leg, pod: Address, call: Call) returns (legs: seq<Leg>)
    requires Valid(net) && pod in net.gateways && Redirects(net.gateways[pod].host, call)
    requires Accepted(net, first) == Internal(pod) && first.sourcePort == 1 && first.rest == []
    requires pod in histories && histories[pod] == OneConnection(call)
    requires Owner(pod, Addr(Wanted(call))) in net.gateways
    requires var far := net.gateways[Owner(pod, Addr(Wanted(call)))]; At(far.address, far.proxyPort) != Wanted(call)
    ensures IsTrace(Causing(net, histories), legs) && |legs| == 3 && legs[0] == first
    ensures legs[2] == Leg(Owner(pod, Addr(Wanted(call))), Wanted(call), 1, first.ready, [])
  {
    OneConnectionAnswers(net.gateways[pod].host, call);
    var l2 := NearCauses(net, histories, first, Wanted(call));
    assert first.ready + [] == first.ready;
    var l3 := ThirdLeg(net, histories, pod, Wanted(call), l2);
    Three(Causing(net, histories), first, l2, l3);
    legs := [first, l2, l3];
  }

  function Names(target: Endpoint, n: nat): seq<byte> {
    if n == 0 then [] else Print(target) + Names(target, n - 1)
  }

  lemma CascadeStep(net: Network, histories: Histories, owner: Address, target: Endpoint, k: nat)
    requires Valid(net) && owner in net.gateways && Accepts(net, owner, target) == External(owner)
    ensures Causes(net, histories, Leg(owner, target, 1, Names(target, k + 1), []),
                   Leg(owner, target, 1, Names(target, k), []))
  {
    assert ValidGateway(owner, net.gateways[owner], net.clusterPort);
    var next := FarCauses(net, histories, Leg(owner, target, 1, Names(target, k + 1), []), target, 1);
    assert Print(target) + Names(target, k) == Names(target, k + 1);
    assert next.ready == Names(target, k);
  }

  /** A gateway that is told n times to dial its own cluster port does so n times. */
  lemma Cascade(net: Network, histories: Histories, first: seq<Leg>, owner: Address, target: Endpoint, n: nat)
    returns (legs: seq<Leg>)
    requires Valid(net) && owner in net.gateways && Accepts(net, owner, target) == External(owner)
    requires first != [] && IsTrace(Causing(net, histories), first)
    requires first[|first| - 1] == Leg(owner, target, 1, Names(target, n), [])
    ensures IsTrace(Causing(net, histories), legs) && |legs| == |first| + n && legs[0] == first[0]
  {
    var at := (k: nat) => Leg(owner, target, 1, Names(target, k), []);
    forall k: nat | k < n
      ensures Causes(net, histories, at(k + 1), at(k))
    {
      CascadeStep(net, histories, owner, target, k);
    }
    legs := CountDown(Causing(net, histories), first, at, n);
  }

  /** A connect that reaches a cluster port itself: the bytes it brings, which are read as the name of
      a target, make for as many dials as they like. */
  lemma ExternalChain(net: Network, histories: Histories, pod: Address, dialled: Endpoint, n: nat)
    returns (legs: seq<Leg>)
    requires Valid(net) && Accepts(net, pod, dialled).External?
    ensures ChainFrom(net, histories, pod, dialled, legs) && |legs| == n + 1
  {
    var owner := Owner(pod, Addr(dialled));
    var first := Leg(pod, dialled, 1, Names(dialled, n), []);
    if n == 0 {
      legs := [first];
    } else {
      assert ValidGateway(owner, net.gateways[owner], net.clusterPort);
      var second := FarCauses(net, histories, first, dialled, 1);
      assert second.ready == Names(dialled, n - 1);
      Append(Causing(net, histories), [first], second);
      legs := Cascade(net, histories, [first] + [second], owner, dialled, n - 1);
    }
  }

  /** The third dial reaches the cluster port, with the same effect. */
  lemma ClusterPortChain(net: Network, histories: Histories, first: Leg, pod: Address, call: Call, n: nat)
    returns (legs: seq<Leg>)
    requires Valid(net) && pod in net.gateways && Redirects(net.gateways[pod].host, call)
    requires Accepted(net, first) == Internal(pod) && first.sourcePort == 1 && first.rest == []
    requires first.ready == Names(Wanted(call), n)
    requires pod in histories && histories[pod] == OneConnection(call)
    requires Owner(pod, Addr(Wanted(call))) in net.gateways && Wanted(call).port == net.clusterPort
    ensures IsTrace(Causing(net, histories), legs) && |legs| == n + 3 && legs[0] == first
  {
    var owner := Owner(pod, Addr(Wanted(call)));
    assert ValidGateway(owner, net.gateways[owner], net.clusterPort);
    var three := FirstLegs(net, histories, first, pod, call);
    legs := Cascade(net, histories, three, owner, Wanted(call), n);
  }

  /** The third dial reaches an internal listener by an alias, and finds an entry under its port. */
  lemma AliasChain(net: Network, histories: Histories, first: Leg, pod: Address, call: Call, stale: Call)
    returns (legs: seq<Leg>)
    requires Valid(net) && pod in net.gateways && Redirects(net.gateways[pod].host, call)
    requires Accepted(net, first) == Internal(pod) && first.sourcePort == 1 && first.rest == []
    requires pod in histories && histories[pod] == OneConnection(call)
    requires Owner(pod, Addr(Wanted(call))) in net.gateways && Owner(pod, Addr(Wanted(call))) in histories
    requires var owner := Owner(pod, Addr(Wanted(call)));
             && HasAlias(net.gateways[owner], Addr(Wanted(call))) && Wanted(call).port == net.gateways[owner].proxyPort
             && Redirects(net.gateways[owner].host, stale) && histories[owner] == OneConnection(stale)
    ensures IsTrace(Causing(net, histories), legs) && |legs| == 4 && legs[0] == first
  {
    var owner := Owner(pod, Addr(Wanted(call)));
    assert ValidGateway(owner, net.gateways[owner], net.clusterPort);
    var three := FirstLegs(net, histories, first, pod, call);
    OneConnectionAnswers(net.gateways[owner].host, stale);
    var next := NearCauses(net, histories, three[2], Wanted(stale));
    Append(Causing(net, histories), three, next);
    legs := three + [next];
  }

  lemma OneConnectionIsGood(host: Host, call: Call)
    requires Redirects(host, call)
    ensures IsGoodHistory(host, OneConnection(call))
  {
    OneConnectionAnswers(host, call);
  }

  /** With a cluster port that is not exempt, a connect that reaches an internal listener whose tables
      can lead to a gateway's pod has chains of every length. */
  lemma OpenClusterPort(net: Network, from: Address, dialled: Endpoint, pod: Address, some: Call, n: nat)
    returns (histories: Histories, legs: seq<Leg>)
    requires Valid(net) && net.clusterPort !in EXEMPT_PORTS && Accepts(net, from, dialled) == Internal(pod)
    requires pod in net.gateways && Redirects(net.gateways[pod].host, some)
    requires Owner(pod, Addr(Wanted(some))) in net.gateways
    ensures Permitted(net, histories) && ChainFrom(net, histories, from, dialled, legs) && |legs| == n + 3
  {
    var call := WithPort(some, net.clusterPort);
    AnyOtherPort(net.gateways[pod].host, some, net.clusterPort);
    OneConnectionIsGood(net.gateways[pod].host, call);
    histories := map[pod := OneConnection(call)];
    legs := ClusterPortChain(net, histories, Leg(from, dialled, 1, Names(Wanted(call), n), []), pod, call, n);
  }

  /** With an alias of an internal listener whose port is not exempt there is a fourth dial. */
  lemma OpenAlias(net: Network, from: Address, dialled: Endpoint, pod: Address, some: Call, stale: Call)
    returns (histories: Histories, legs: seq<Leg>)
    requires Valid(net) && Accepts(net, from, dialled) == Internal(pod)
    requires pod in net.gateways && Redirects(net.gateways[pod].host, some)
    requires Owner(pod, Addr(Wanted(some))) in net.gateways
    requires var far := net.gateways[Owner(pod, Addr(Wanted(some)))];
             HasAlias(far, Addr(Wanted(some))) && far.proxyPort !in EXEMPT_PORTS && Redirects(far.host, stale)
    ensures Permitted(net, histories) && ChainFrom(net, histories, from, dialled, legs) && |legs| == 4
  {
    var owner := Owner(pod, Addr(Wanted(some)));
    var far := net.gateways[owner];
    var call := WithPort(some, far.proxyPort);
    AnyOtherPort(net.gateways[pod].host, some, far.proxyPort);
    var later := if owner == pod then call else stale;
    histories := map[pod := OneConnection(call), owner := OneConnection(later)];
    OneConnectionIsGood(net.gateways[pod].host, call);
    OneConnectionIsGood(far.host, later);
    legs := AliasChain(net, histories, Leg(from, dialled, 1, [], []), pod, call, later);
  }

  /** A connect that reaches the internal listener of an unsafe pod can cause a fourth dial. */
  lemma UnsafeHasLongChain(net: Network, from: Address, dialled: Endpoint, pod: Address)
    returns (histories: Histories, legs: seq<Leg>)
    requires Valid(net) && Accepts(net, from, dialled) == Internal(pod) && pod in net.gateways && !SafeAt(net, pod)
    ensures Permitted(net, histories) && ChainFrom(net, histories, from, dialled, legs) && |legs| == 4
  {
    var addr :| CanRedirectTo(net.gateways[pod].host, addr) && Owner(pod, addr) in net.gateways
                && !SafePair(net, pod, addr);
    var host, far := net.gateways[pod].host, net.gateways[Owner(pod, addr)];
    var some :| Redirects(host, some) && Addr(Wanted(some)) == addr;
    if net.clusterPort !in EXEMPT_PORTS {
      histories, legs := OpenClusterPort(net, from, dialled, pod, some, 1);
    } else {
      var stale :| Redirects(far.host, stale);
      histories, legs := OpenAlias(net, from, dialled, pod, some, stale);
    }
  }

  // ---------------------------------------------------------------- which connects are bounded

  /** Three dials are the most that a connect to the endpoint can cause. */
  ghost predicate IsBounded(net: Network, pod: Address, dialled: Endpoint) {
    forall histories, legs | Permitted(net, histories) && ChainFrom(net, histories, pod, dialled, legs) :: |legs| <= 3
  }

  /** For any network, and any connect, of an application or not, redirected or not: it is bounded
      exactly when no external listener accepts it, and no internal listener of an unsafe pod. */
  lemma BoundedExactlyWhen(net: Network, pod: Address, dialled: Endpoint)
    requires Valid(net)
    ensures IsBounded(net, pod, dialled) <==>
            match Accepts(net, pod, dialled)
            case Internal(near) => SafeAt(net, near)
            case External(_) => false
            case Elsewhere => true
  {
    match Accepts(net, pod, dialled)
    case Internal(near) =>
      if SafeAt(net, near) {
        BoundedWhenSafe(net, pod, dialled);
      } else {
        var histories, legs := UnsafeHasLongChain(net, pod, dialled, near);
      }
    case External(_) =>
      var legs := ExternalChain(net, map[], pod, dialled, 3);
      assert Permitted(net, map[]);
    case Elsewhere =>
      BoundedWhenSafe(net, pod, dialled);
  }

  lemma BoundedWhenSafe(net: Network, pod: Address, dialled: Endpoint)
    requires Valid(net)
    requires match Accepts(net, pod, dialled)
             case Internal(near) => SafeAt(net, near)
             case External(_) => false
             case Elsewhere => true
    ensures IsBounded(net, pod, dialled)
  {
    forall histories, legs | Permitted(net, histories) && ChainFrom(net, histories, pod, dialled, legs)
      ensures |legs| <= 3
    {
      BoundedChain(net, histories, pod, dialled, legs);
    }
  }

  /** In a safe network, for any connect of any process in any pod, hooked or not: it is bounded exactly
      when no external listener accepts it. */
  lemma SafeLeavesClusterPort(net: Network, pod: Address, dialled: Endpoint)
    requires Valid(net) && Safe(net)
    ensures IsBounded(net, pod, dialled) <==> !Accepts(net, pod, dialled).External?
  {
    BoundedExactlyWhen(net, pod, dialled);
  }

  /** What this means for a connect that the hook sees: a redirected one is bounded exactly when its pod
      is safe; one that is left alone is what its endpoint makes it. */
  lemma ConnectIsBoundedExactlyWhen(net: Network, pod: Address, call: Call)
    requires Valid(net) && pod in net.gateways
    ensures var host := net.gateways[pod].host;
            IsBounded(net, pod, Rewritten(host, call)) <==>
              if Redirects(host, call) then SafeAt(net, pod)
              else match Accepts(net, pod, Wanted(call))
                   case Internal(near) => SafeAt(net, near)
                   case External(_) => false
                   case Elsewhere => true
  {
    var host := net.gateways[pod].host;
    BoundedExactlyWhen(net, pod, Rewritten(host, call));
    if Redirects(host, call) {
      assert ValidGateway(pod, net.gateways[pod], net.clusterPort);
      RedirectedReachesOwnGateway(net, Leg(pod, Rewritten(host, call), 1, [], []));
    }
  }

  /** Every network with a gateway has connects without any bound: those that an application makes to
      the cluster port of a gateway's pod, its own for instance. Where the port is exempt they reach the
      external listener, which takes the application's bytes for preambles; where it is not, the third
      dial does. */
  lemma ClusterPortIsUnbounded(net: Network, pod: Address, call: Call, n: nat)
    returns (histories: Histories, legs: seq<Leg>)
    requires Valid(net) && pod in net.gateways
    requires Wanted(call).port == net.clusterPort && Owner(pod, Addr(Wanted(call))) in net.gateways
    ensures Permitted(net, histories) && |legs| > n
    ensures ChainFrom(net, histories, pod, Rewritten(net.gateways[pod].host, call), legs)
  {
    var host := net.gateways[pod].host;
    var dialled := Rewritten(host, call);
    if Redirects(host, call) {
      RedirectedReachesOwnGateway(net, Leg(pod, dialled, 1, [], []));
      histories, legs := OpenClusterPort(net, pod, dialled, pod, call, n);
    } else {
      histories := map[];
      legs := ExternalChain(net, histories, pod, dialled, n);
    }
  }

  /** Three dials are the most that a redirected connect can cause exactly when the configuration is
      safe: the cluster port is an exempt one, and so is the proxy port of every gateway that its pod's
      address, or another alias of its listener, leads to. */
  lemma ShortExactlyWhenSafe(net: Network)
    requires Valid(net)
    ensures (forall histories, legs | Permitted(net, histories) && Chain(net, histories, legs) :: |legs| <= 3) <==>
            Safe(net)
  {
    if Safe(net) {
      forall histories, legs | Permitted(net, histories) && Chain(net, histories, legs)
        ensures |legs| <= 3
      {
        ChainsAreShort(net, histories, legs);
      }
    } else {
      var pod :| pod in net.gateways && !SafeAt(net, pod);
      var histories, legs := UnsafePodHasLongChain(net, pod);
    }
  }

  lemma UnsafePodHasLongChain(net: Network, pod: Address) returns (histories: Histories, legs: seq<Leg>)
    requires Valid(net) && pod in net.gateways && !SafeAt(net, pod)
    ensures Permitted(net, histories) && Chain(net, histories, legs) && |legs| == 4
  {
    var addr :| CanRedirectTo(net.gateways[pod].host, addr) && Owner(pod, addr) in net.gateways
                && !SafePair(net, pod, addr);
    var call :| Redirects(net.gateways[pod].host, call) && Addr(Wanted(call)) == addr;
    var dialled := Rewritten(net.gateways[pod].host, call);
    RedirectedReachesOwnGateway(net, Leg(pod, dialled, 1, [], []));
    histories, legs := UnsafeHasLongChain(net, pod, dialled, pod);
  }

  /** The default ports are exempt, so they make for a safe network wherever listeners are bound; what
      remains unbounded is exactly the connects to the cluster port of a gateway's pod. */
  lemma DefaultPortsAreSafe(net: Network)
    requires Valid(net) && net.clusterPort == 18001
    requires forall pod | pod in net.gateways :: net.gateways[pod].proxyPort == 18000
    ensures Safe(net)
    ensures forall pod, dialled ::
              IsBounded(net, pod, dialled) <==> !(dialled.port == 18001 && Owner(pod, Addr(dialled)) in net.gateways)
  {
    assert forall pod | pod in net.gateways :: SafeAt(net, pod);
    forall pod, dialled
      ensures IsBounded(net, pod, dialled) <==> !(dialled.port == 18001 && Owner(pod, Addr(dialled)) in net.gateways)
    {
      SafeLeavesClusterPort(net, pod, dialled);
    }
  }

  /** A gateway bound to all addresses, with a proxy port that the hooks do not exempt, in a
      pod of 10.244.0.0/16 with another process `pid`. */
  predicate IsExample(g: Gateway, pod: Address, pid: u32) {
    && g.address == ANY && g.proxyPort != 0 && g.proxyPort !in EXEMPT_PORTS
    && g.host.conf == Some(Config(0, g.proxyPort, 1, 0x0AF4_0000, 16, 0)) && pid in g.host.pids
    && pod.a == 10 && pod.b == 244 && 1 < pid < 0x8000_0000
  }

  function CallTo(addr: Address, pid: u32): Call {
    Call(AF_INET, IPPROTO_TCP, Word(addr.a, addr.b, addr.c, addr.d), 0x5000, pid, pid)
  }

  lemma ExampleRedirected(g: Gateway, pod: Address, pid: u32)
    requires IsExample(g, pod, pid)
    ensures IsRedirectedTo(g.host, CallTo(pod, pid), pod)
  {
    WordBytes(pod.a, pod.b, pod.c, pod.d);
    assert HostAddress(CallTo(pod, pid)) == Word(pod.d, pod.c, 244, 10);
    assert Pow2(32 - 16) == 0x1_0000 by {
      assert Pow2(8) == 0x100;
    }
  }

  lemma ExampleListens(g: Gateway, pod: Address, pid: u32, clusterPort: u16)
    requires IsExample(g, pod, pid) && clusterPort != g.proxyPort
    ensures ValidGateway(pod, g, clusterPort) && HasAlias(g, pod)
  {
  }

  predicate IsRedirectedTo(host: Host, call: Call, addr: Address) {
    match host.conf
    case Some(_) => Redirects(host, call) && Addr(Wanted(call)) == addr
    case None => false
  }

  ghost predicate IsUnsafeChain(net: Network, histories: Histories, legs: seq<Leg>) {
    Valid(net) && !Safe(net) && Permitted(net, histories) && Chain(net, histories, legs) && |legs| == 4
  }

  /** A pod that redirects connects to itself, with a listener that its own address is an alias of. */
  lemma SelfDial(pod: Address, g: Gateway, clusterPort: u16, call: Call) returns (histories: Histories, legs: seq<Leg>)
    requires ValidGateway(pod, g, clusterPort) && HasAlias(g, pod) && g.proxyPort !in EXEMPT_PORTS
    requires IsRedirectedTo(g.host, call, pod)
    ensures IsUnsafeChain(Network(map[pod := g], clusterPort), histories, legs)
  {
    var net := Network(map[pod := g], clusterPort);
    var dialled := Rewritten(g.host, call);
    RedirectedReachesOwnGateway(net, Leg(pod, dialled, 1, [], []));
    histories, legs := OpenAlias(net, pod, dialled, pod, call, call);
    if Safe(net) {
      ChainsAreShort(net, histories, legs);
    }
  }

  /** With it a connect of the pod to its own address and the proxy port makes the gateway dial
      itself, and with an old entry under the right port, a fourth time. */
  lemma AliasExample(g: Gateway, pod: Address, pid: u32, clusterPort: u16)
    returns (histories: Histories, legs: seq<Leg>)
    requires IsExample(g, pod, pid) && clusterPort != g.proxyPort
    ensures IsUnsafeChain(Network(map[pod := g], clusterPort), histories, legs)
  {
    ExampleListens(g, pod, pid, clusterPort);
    ExampleRedirected(g, pod, pid);
    histories, legs := SelfDial(pod, g, clusterPort, CallTo(pod, pid));
  }
}
