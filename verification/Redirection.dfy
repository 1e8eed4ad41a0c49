/** Runs of the redirection protocol: connects, connection establishments, closes and original
    destination queries over any number of sockets, interleaved in any order. */
module Redirection {
  import opened Words
  import opened ByteOrder
  import opened Mirrors

  datatype Event =
    | Connect(cookie: Cookie, call: Call)
    | SockOp(cookie: Cookie, family: nat, op: nat, localPort: u16)
    | Close(cookie: Cookie)
    | Query(clientPort: u16)

  /** What happened to a socket: what it asked for, whether that was redirected, the local port it
      got when established, and whether it is still open. */
  datatype Conn = Conn(call: Call, record: Socket, redirected: bool, port: Option<u16>, live: bool)

  /** The shared maps, the sockets, and the redirected ones among the first MAX_CONNECTIONS. */
  datatype World = World(tables: Tables, conns: map<Cookie, Conn>, recorded: set<Cookie>)

  const EMPTY := World(Tables(map[], map[]), map[], {})

  function Step(host: Host, w: World, e: Event): World {
    match e
    case Connect(cookie, call) =>
      World(AfterConnect(host, w.tables, cookie, call),
            w.conns[cookie := Conn(call, Record(call), Redirects(host, call), None, true)],
            if Redirects(host, call) && |w.recorded| < MAX_CONNECTIONS then w.recorded + {cookie} else w.recorded)
    case SockOp(cookie, family, op, localPort) =>
      w.(tables := AfterSockOp(w.tables, cookie, family, op, localPort),
         conns := if IsEstablished(family, op) && cookie in w.conns
                  then w.conns[cookie := w.conns[cookie].(port := Some(localPort))]
                  else w.conns)
    case Close(cookie) =>
      if cookie in w.conns then w.(conns := w.conns[cookie := w.conns[cookie].(live := false)]) else w
    case Query(_) => w
  }

  /** What the kernel and the applications guarantee: one connect per socket, at most one
      establishment of it, while it is open, and source ports of live redirected connections
      (which all go to the proxy's address and port) are distinct. */
  ghost predicate Enabled(w: World, e: Event) {
    match e
    case Connect(cookie, call) => cookie !in w.conns
    case SockOp(cookie, family, op, localPort) =>
      IsEstablished(family, op) && cookie in w.conns ==>
        && w.conns[cookie].live && w.conns[cookie].port.None?
        && (w.conns[cookie].redirected ==> forall c | c in w.conns :: !HoldsPort(w.conns[c], localPort))
    case Close(_) => true
    case Query(_) => true
  }

  predicate HoldsPort(conn: Conn, port: u16) {
    conn.redirected && conn.live && conn.port == Some(port)
  }

  function Run(host: Host, events: seq<Event>): World {
    if events == [] then EMPTY
    else Step(host, Run(host, events[..|events| - 1]), events[|events| - 1])
  }

  ghost predicate Legal(host: Host, events: seq<Event>) {
    events == [] ||
    var before := events[..|events| - 1];
    Legal(host, before) && Enabled(Run(host, before), events[|events| - 1])
  }

  predicate HasCookie(e: Event) {
    !e.Query?
  }

  /** The cookies of a run. */
  ghost predicate CookiesIn(events: seq<Event>, cookies: set<Cookie>) {
    forall i | 0 <= i < |events| && HasCookie(events[i]) :: events[i].cookie in cookies
  }

  /** The low halves tell the cookies apart. */
  ghost predicate DistinctLow(cookies: set<Cookie>) {
    forall c1, c2 | c1 in cookies && c2 in cookies && c1.low == c2.low :: c1 == c2
  }

  function RedirectedSockets(w: World): set<Cookie> {
    set c | c in w.conns && w.conns[c].redirected
  }

  // ---------------------------------------------------------------- the invariant

  ghost predicate Inv(w: World, cookies: set<Cookie>) {
    && w.conns.Keys <= cookies
    && RecordedAgree(w.recorded, RedirectedSockets(w))
    && SocksAgree(w.recorded, w.tables.socks, w.conns)
    && PortsAgree(w.recorded, w.tables.ports, w.conns)
  }

  /** Every redirected socket is recorded until the table is full. */
  ghost predicate RecordedAgree(recorded: set<Cookie>, redirected: set<Cookie>) {
    && recorded <= redirected
    && |recorded| <= MAX_CONNECTIONS
    && (recorded != redirected ==> |recorded| == MAX_CONNECTIONS)
  }

  /** The record table holds, for each recorded socket and nothing else, what it asked for. */
  ghost predicate SocksAgree(recorded: set<Cookie>, socks: map<u32, Socket>, conns: map<Cookie, Conn>) {
    && (forall c | c in recorded :: c in conns && c.low in socks && socks[c.low] == conns[c].record)
    && (forall k | k in socks :: HasOwner(k, recorded))
    && |socks| == |recorded|
  }

  ghost predicate HasOwner(key: u32, recorded: set<Cookie>) {
    exists c :: c in recorded && c.low == key
  }

  /** The port table maps the port of each live established recorded socket to that socket, and
      any other entry to a recorded socket that once had the port. */
  ghost predicate PortsAgree(recorded: set<Cookie>, ports: map<u16, Cookie>, conns: map<Cookie, Conn>) {
    && (forall p | p in ports :: ports[p] in recorded && ports[p] in conns && conns[ports[p]].port == Some(p))
    && (forall c | c in recorded && c in conns && conns[c].live && conns[c].port.Some? ::
          conns[c].port.value in ports && ports[conns[c].port.value] == c)
  }

  lemma {:induction false} InvHolds(host: Host, events: seq<Event>, cookies: set<Cookie>)
    requires Legal(host, events) && CookiesIn(events, cookies) && DistinctLow(cookies)
    ensures Inv(Run(host, events), cookies)
  {
    if events != [] {
      var before, e := events[..|events| - 1], events[|events| - 1];
      assert CookiesIn(before, cookies);
      InvHolds(host, before, cookies);
      StepKeepsInv(host, Run(host, before), e, cookies);
    }
  }

  lemma StepKeepsInv(host: Host, w: World, e: Event, cookies: set<Cookie>)
    requires Inv(w, cookies) && Enabled(w, e) && DistinctLow(cookies)
    requires HasCookie(e) ==> e.cookie in cookies
    ensures Inv(Step(host, w, e), cookies)
  {
    match e
    case Connect(cookie, call) =>
      ConnectKeepsInv(host, w, cookie, call, cookies);
    case SockOp(cookie, family, op, localPort) =>
      if IsEstablished(family, op) {
        EstablishedKeepsInv(host, w, cookie, family, op, localPort, cookies);
      }
    case Close(cookie) =>
      CloseKeepsInv(host, w, cookie, cookies);
    case Query(_) =>
  }

  lemma ConnectKeepsInv(host: Host, w: World, cookie: Cookie, call: Call, cookies: set<Cookie>)
    requires Inv(w, cookies) && DistinctLow(cookies)
    requires cookie in cookies && cookie !in w.conns
    ensures Inv(Step(host, w, Connect(cookie, call)), cookies)
  {
    AddConn(w, cookie, Conn(call, Record(call), Redirects(host, call), None, true), cookies);
  }

  lemma AddConn(w: World, cookie: Cookie, conn: Conn, cookies: set<Cookie>)
    requires Inv(w, cookies) && DistinctLow(cookies)
    requires cookie in cookies && cookie !in w.conns && conn.port.None?
    ensures var socks := if conn.redirected then Put(w.tables.socks, cookie.low, conn.record) else w.tables.socks;
            var recorded := if conn.redirected && |w.recorded| < MAX_CONNECTIONS then w.recorded + {cookie}
                            else w.recorded;
            Inv(World(w.tables.(socks := socks), w.conns[cookie := conn], recorded), cookies)
  {
    LowIsNew(w.recorded, w.tables.socks, w.conns, cookie, cookies);
    CountAfterConnect(w, cookie, conn);
    if conn.redirected && |w.recorded| < MAX_CONNECTIONS {
      AddRecord(w.recorded, w.tables.socks, w.conns, cookie, conn);
      AddPortless(w.recorded, w.tables.ports, w.conns, cookie, conn);
    } else {
      Elsewhere(w.recorded, w.tables, w.conns, cookie, conn);
    }
  }

  lemma CountAfterConnect(w: World, cookie: Cookie, conn: Conn)
    requires cookie !in w.conns
    ensures RedirectedSockets(w.(conns := w.conns[cookie := conn])) ==
            if conn.redirected then RedirectedSockets(w) + {cookie} else RedirectedSockets(w)
  {
  }

  lemma AddRecord(recorded: set<Cookie>, socks: map<u32, Socket>, conns: map<Cookie, Conn>, cookie: Cookie, conn: Conn)
    requires SocksAgree(recorded, socks, conns)
    requires cookie !in conns && cookie.low !in socks
    ensures SocksAgree(recorded + {cookie}, socks[cookie.low := conn.record], conns[cookie := conn])
  {
    var recorded', socks' := recorded + {cookie}, socks[cookie.low := conn.record];
    forall k | k in socks'
      ensures HasOwner(k, recorded')
    {
      NewOwner(k, recorded, cookie);
    }
    forall c | c in recorded'
      ensures c.low in socks' && socks'[c.low] == conns[cookie := conn][c].record
    {
      assert c == cookie || (c in recorded && c.low in socks && c.low != cookie.low);
    }
    assert cookie !in recorded;
    assert |socks'| == |socks| + 1;
  }

  lemma NewOwner(key: u32, recorded: set<Cookie>, cookie: Cookie)
    requires key == cookie.low || HasOwner(key, recorded)
    ensures HasOwner(key, recorded + {cookie})
  {
    var c :| c in recorded + {cookie} && c.low == key;
  }

  lemma AddPortless(recorded: set<Cookie>, ports: map<u16, Cookie>, conns: map<Cookie, Conn>, cookie: Cookie,
                    conn: Conn)
    requires PortsAgree(recorded, ports, conns)
    requires cookie !in conns && conn.port.None?
    ensures PortsAgree(recorded + {cookie}, ports, conns[cookie := conn])
  {
  }

  /** Sockets outside the recorded ones do not matter to the tables. */
  lemma Elsewhere(recorded: set<Cookie>, t: Tables, conns: map<Cookie, Conn>, cookie: Cookie, conn: Conn)
    requires SocksAgree(recorded, t.socks, conns) && PortsAgree(recorded, t.ports, conns)
    requires cookie !in recorded
    ensures SocksAgree(recorded, t.socks, conns[cookie := conn])
    ensures PortsAgree(recorded, t.ports, conns[cookie := conn])
  {
  }

  lemma LowIsNew(recorded: set<Cookie>, socks: map<u32, Socket>, conns: map<Cookie, Conn>, cookie: Cookie,
                 cookies: set<Cookie>)
    requires recorded <= cookies && DistinctLow(cookies) && cookie in cookies
    requires SocksAgree(recorded, socks, conns)
    ensures cookie.low in socks <==> cookie in recorded
  {
  }

  lemma EstablishedKeepsInv(host: Host, w: World, cookie: Cookie, family: nat, op: nat, localPort: u16,
                            cookies: set<Cookie>)
    requires Inv(w, cookies) && DistinctLow(cookies) && cookie in cookies
    requires IsEstablished(family, op) && Enabled(w, SockOp(cookie, family, op, localPort))
    ensures Inv(Step(host, w, SockOp(cookie, family, op, localPort)), cookies)
  {
    LowIsNew(w.recorded, w.tables.socks, w.conns, cookie, cookies);
    if cookie in w.conns {
      var conn := w.conns[cookie].(port := Some(localPort));
      SameRedirected(w, cookie, conn);
      if cookie in w.recorded {
        PortsFit(w.recorded, w.tables, w.conns, cookie);
        SameRecord(w.recorded, w.tables.socks, w.conns, cookie, conn);
        EstablishedSetsPort(w.recorded, w.tables.ports, w.conns, cookie, localPort);
      } else {
        Elsewhere(w.recorded, w.tables, w.conns, cookie, conn);
      }
    }
  }

  lemma SameRedirected(w: World, cookie: Cookie, conn: Conn)
    requires cookie in w.conns && conn.redirected == w.conns[cookie].redirected
    ensures RedirectedSockets(w.(conns := w.conns[cookie := conn])) == RedirectedSockets(w)
  {
  }

  lemma SameRecord(recorded: set<Cookie>, socks: map<u32, Socket>, conns: map<Cookie, Conn>, cookie: Cookie, conn: Conn)
    requires SocksAgree(recorded, socks, conns)
    requires cookie in conns && conn.record == conns[cookie].record
    ensures SocksAgree(recorded, socks, conns[cookie := conn])
  {
  }

  lemma EstablishedSetsPort(recorded: set<Cookie>, ports: map<u16, Cookie>, conns: map<Cookie, Conn>,
                            cookie: Cookie, localPort: u16)
    requires forall c | c in recorded :: c in conns && conns[c].redirected
    requires PortsAgree(recorded, ports, conns) && cookie in recorded
    requires conns[cookie].live && conns[cookie].port.None?
    requires forall c | c in conns :: !HoldsPort(conns[c], localPort)
    ensures PortsAgree(recorded, ports[localPort := cookie], conns[cookie := conns[cookie].(port := Some(localPort))])
  {
    forall c | c in recorded && c != cookie && conns[c].live && conns[c].port.Some?
      ensures conns[c].port.value != localPort
    {
      assert !HoldsPort(conns[c], localPort);
    }
  }

  lemma CloseKeepsInv(host: Host, w: World, cookie: Cookie, cookies: set<Cookie>)
    requires Inv(w, cookies)
    ensures Inv(Step(host, w, Close(cookie)), cookies)
  {
    if cookie in w.conns {
      var conn := w.conns[cookie].(live := false);
      SameRedirected(w, cookie, conn);
      SameRecord(w.recorded, w.tables.socks, w.conns, cookie, conn);
      ClosedKeepsPorts(w.recorded, w.tables.ports, w.conns, cookie);
    }
  }

  lemma ClosedKeepsPorts(recorded: set<Cookie>, ports: map<u16, Cookie>, conns: map<Cookie, Conn>, cookie: Cookie)
    requires PortsAgree(recorded, ports, conns) && cookie in conns
    ensures PortsAgree(recorded, ports, conns[cookie := conns[cookie].(live := false)])
  {
  }

  // ---------------------------------------------------------------- capacity

  /** An injective map into a set is no larger than the set. */
  lemma {:induction false} InjectionFits<K, V>(m: map<K, V>, range: set<V>)
    requires forall k | k in m :: m[k] in range
    requires forall k1, k2 | k1 in m && k2 in m && m[k1] == m[k2] :: k1 == k2
    ensures |m| <= |range|
    decreases |m|
  {
    if m != map[] {
      var k :| k in m;
      var rest := m - {k};
      assert m.Keys == rest.Keys + {k};
      InjectionFits(rest, range - {m[k]});
    }
  }

  /** Port entries belong to different recorded sockets, so a recorded socket that has none yet
      leaves room for its own. */
  lemma PortsFit(recorded: set<Cookie>, t: Tables, conns: map<Cookie, Conn>, cookie: Cookie)
    requires SocksAgree(recorded, t.socks, conns) && PortsAgree(recorded, t.ports, conns)
    requires cookie in recorded && conns[cookie].port.None?
    ensures |t.ports| < |t.socks|
  {
    InjectionFits(t.ports, recorded - {cookie});
  }

  // ---------------------------------------------------------------- what every run keeps

  /** A run as the theorems take it: the environment keeps its side, and the low halves of the
      cookies it uses are distinct. */
  ghost predicate GoodRun(host: Host, events: seq<Event>, cookies: set<Cookie>) {
    Legal(host, events) && CookiesIn(events, cookies) && DistinctLow(cookies)
  }

  predicate FollowsCall(host: Host, conn: Conn) {
    conn.redirected == Redirects(host, conn.call) && conn.record == Record(conn.call)
  }

  /** The history follows the calls, in any run at all. */
  lemma {:induction false} ConnsFollowCalls(host: Host, events: seq<Event>)
    ensures forall c | c in Run(host, events).conns :: FollowsCall(host, Run(host, events).conns[c])
  {
    if events != [] {
      ConnsFollowCalls(host, events[..|events| - 1]);
    }
  }

  /** The port table never outgrows the record table, each port leads to a record, and until more
      than MAX_CONNECTIONS sockets have been redirected every one of them is on record. */
  lemma CapacityInvariant(host: Host, events: seq<Event>, cookies: set<Cookie>)
    requires GoodRun(host, events, cookies)
    ensures var w := Run(host, events);
            && |w.tables.ports| <= |w.tables.socks| <= MAX_CONNECTIONS
            && (forall p | p in w.tables.ports :: w.tables.ports[p].low in w.tables.socks)
            && (|RedirectedSockets(w)| <= MAX_CONNECTIONS ==> w.recorded == RedirectedSockets(w))
            && (|RedirectedSockets(w)| > MAX_CONNECTIONS ==> |w.tables.socks| == MAX_CONNECTIONS)
  {
    InvHolds(host, events, cookies);
    var w := Run(host, events);
    InjectionFits(w.tables.ports, w.recorded);
    SubsetFits(w.recorded, RedirectedSockets(w));
  }

  lemma {:induction false} SubsetFits<T>(a: set<T>, b: set<T>)
    requires a <= b
    ensures |a| <= |b| && (|a| == |b| ==> a == b)
  {
    if a == {} {
    } else {
      var x :| x in a;
      SubsetFits(a - {x}, b - {x});
    }
  }

  /** The update the hook asked for is in the table. */
  ghost predicate TookEffect(host: Host, w: World, e: Event) {
    match e
    case Connect(cookie, call) =>
      Redirects(host, call) ==> cookie.low in w.tables.socks && w.tables.socks[cookie.low] == Record(call)
    case SockOp(cookie, family, op, localPort) =>
      IsEstablished(family, op) && cookie in w.conns && w.conns[cookie].redirected ==>
        localPort in w.tables.ports && w.tables.ports[localPort] == cookie
    case Close(_) => true
    case Query(_) => true
  }

  /** While at most MAX_CONNECTIONS sockets have been redirected no map update is refused. */
  lemma NoUpdateRefused(host: Host, events: seq<Event>, cookies: set<Cookie>, e: Event)
    requires GoodRun(host, events + [e], cookies)
    requires |RedirectedSockets(Run(host, events + [e]))| <= MAX_CONNECTIONS
    ensures TookEffect(host, Run(host, events + [e]), e)
  {
    assert (events + [e])[..|events|] == events;
    InvHolds(host, events + [e], cookies);
    CapacityInvariant(host, events + [e], cookies);
    ConnsFollowCalls(host, events + [e]);
    var w := Run(host, events + [e]);
    match e
    case Connect(cookie, call) =>
      assert w.conns[cookie].call == call;
    case SockOp(cookie, family, op, localPort) =>
      if IsEstablished(family, op) && cookie in w.conns {
        assert w.conns[cookie].live && w.conns[cookie].port == Some(localPort);
      }
    case Close(_) =>
    case Query(_) =>
  }

  /** Whatever the run, each record was stored by a redirected connect that asked for it. */
  ghost predicate StoredBy(host: Host, e: Event, key: u32, sock: Socket) {
    e.Connect? && e.cookie.low == key && Redirects(host, e.call) && sock == Record(e.call)
  }

  lemma {:induction false} RecordsHaveSources(host: Host, events: seq<Event>, key: u32)
    requires key in Run(host, events).tables.socks
    ensures exists i :: 0 <= i < |events| && StoredBy(host, events[i], key, Run(host, events).tables.socks[key])
  {
    var before, e := events[..|events| - 1], events[|events| - 1];
    if StoredBy(host, e, key, Run(host, events).tables.socks[key]) {
    } else {
      RecordsHaveSources(host, before, key);
      var i :| 0 <= i < |before| && StoredBy(host, before[i], key, Run(host, before).tables.socks[key]);
      assert events[i] == before[i];
    }
  }

  /** A TCP connect (protocol 6) over IPv4 (family 2) to this address and port, by a process of the pod
      that is not the proxy: in tunnel mode any other one, else one in the table of the pod's processes. */
  predicate IsPodConnect(host: Host, e: Event, address: u32, port: u16) {
    && e.Connect? && host.conf.Some?
    && e.call.family == 2 && e.call.protocol == 6
    && AddressNumber(e.call.userIp4) == address
    && e.call.userPort % 0x100 * 0x100 + e.call.userPort / 0x100 % 0x100 == port
    && if host.conf.value.tunnel == 1 then e.call.tgid != host.conf.value.proxyPid
       else
         && e.call.nsPid in host.pids
         && (e.call.nsPid < 0x8000_0000 ==> e.call.nsPid != host.conf.value.proxyPid)
         && (e.call.nsPid >= 0x8000_0000 ==> e.call.nsPid + 0xFFFF_FFFF_0000_0000 != host.conf.value.proxyPid)
  }

  /** Whatever the run, every record is of such a connect, to an address the configured block accepts
      and a port that is not exempt. */
  lemma RecordsComeFromPodTraffic(host: Host, events: seq<Event>, key: u32)
    requires key in Run(host, events).tables.socks
    ensures var sock := Run(host, events).tables.socks[key];
            && host.conf.Some?
            && sock.srcAddr == 0 && sock.srcPort == 0
            && sock.dstPort !in {8080, 8181, 18000, 18001}
            && InPod(host.conf.value, host.shiftedOut, sock.dstAddr)
            && (1 <= host.conf.value.podPrefixLength <= 32 ==>
                  var network := host.conf.value.podCidr;
                  network <= sock.dstAddr < network + Pow2(32 - host.conf.value.podPrefixLength))
            && exists i ::
                 && 0 <= i < |events| && IsPodConnect(host, events[i], sock.dstAddr, sock.dstPort)
                 && events[i].cookie.low == key
  {
    RecordsHaveSources(host, events, key);
    var sock := Run(host, events).tables.socks[key];
    var i :| 0 <= i < |events| && StoredBy(host, events[i], key, sock);
    RedirectsExactlyWhen(host, events[i].call);
    HostAddressIs(events[i].call);
    WantedPortIs(events[i].call);
    assert IsPodConnect(host, events[i], sock.dstAddr, sock.dstPort);
  }

  // ---------------------------------------------------------------- queries

  /** A query for a live established recorded socket returns the endpoint the socket asked for,
      whatever other sockets did before, with, or after it, and whoever held its port earlier. */
  lemma QueryReturnsWanted(host: Host, events: seq<Event>, cookies: set<Cookie>, c: Cookie)
    requires GoodRun(host, events, cookies)
    requires c in Run(host, events).conns && c in Run(host, events).recorded
    requires Run(host, events).conns[c].live && Run(host, events).conns[c].port.Some?
    ensures var conn := Run(host, events).conns[c];
            Answer(Run(host, events).tables, conn.port.value) == Some(Wanted(conn.call))
  {
    InvHolds(host, events, cookies);
    ConnsFollowCalls(host, events);
    ByteOrderRoundTrip(Run(host, events).conns[c].call, AF_INET_WORD);
  }

  lemma ExtendLegal(host: Host, events: seq<Event>, e: Event)
    requires Legal(host, events) && Enabled(Run(host, events), e)
    ensures Legal(host, events + [e])
    ensures Run(host, events + [e]) == Step(host, Run(host, events), e)
  {
    assert (events + [e])[..|events|] == events;
  }

  lemma Extend(host: Host, events: seq<Event>, e: Event, cookies: set<Cookie>)
    requires GoodRun(host, events, cookies) && Enabled(Run(host, events), e)
    requires HasCookie(e) ==> e.cookie in cookies
    ensures GoodRun(host, events + [e], cookies)
    ensures Run(host, events + [e]) == Step(host, Run(host, events), e)
  {
    ExtendLegal(host, events, e);
  }

  /** Any port entry answers with what a socket asked for that was established at the port. */
  lemma PortAnswers(host: Host, events: seq<Event>, cookies: set<Cookie>, p: u16)
    requires GoodRun(host, events, cookies)
    ensures var w := Run(host, events);
            && (p !in w.tables.ports ==> Answer(w.tables, p) == None)
            && (p in w.tables.ports ==>
                  && w.tables.ports[p] in w.conns && w.conns[w.tables.ports[p]].port == Some(p)
                  && Answer(w.tables, p) == Some(Wanted(w.conns[w.tables.ports[p]].call)))
  {
    InvHolds(host, events, cookies);
    ConnsFollowCalls(host, events);
    var w := Run(host, events);
    if p in w.tables.ports {
      ByteOrderRoundTrip(w.conns[w.tables.ports[p]].call, AF_INET_WORD);
    }
  }

  /** A redirected socket is on record exactly when its connect found room. */
  lemma {:induction false} RecordedIffRoom(host: Host, events: seq<Event>, cookies: set<Cookie>, i: nat)
    requires GoodRun(host, events, cookies)
    requires i < |events| && events[i].Connect? && Redirects(host, events[i].call)
    ensures var w := Run(host, events);
            && events[i].cookie in w.conns && w.conns[events[i].cookie].call == events[i].call
            && (events[i].cookie in w.recorded <==> |Run(host, events[..i]).tables.socks| < MAX_CONNECTIONS)
  {
    var before, e := events[..|events| - 1], events[|events| - 1];
    assert CookiesIn(before, cookies);
    InvHolds(host, before, cookies);
    if i == |before| {
      RecordedNow(host, Run(host, before), e.cookie, e.call, cookies);
    } else {
      assert before[..i] == events[..i] && before[i] == events[i];
      RecordedIffRoom(host, before, cookies, i);
      RecordedForGood(host, Run(host, before), e, events[i].cookie);
    }
  }

  lemma RecordedNow(host: Host, w: World, cookie: Cookie, call: Call, cookies: set<Cookie>)
    requires Inv(w, cookies) && cookie !in w.conns && Redirects(host, call)
    ensures cookie in Step(host, w, Connect(cookie, call)).recorded <==> |w.tables.socks| < MAX_CONNECTIONS
  {
  }

  lemma RecordedForGood(host: Host, w: World, e: Event, c: Cookie)
    requires c in w.conns && Enabled(w, e)
    ensures var w' := Step(host, w, e);
            c in w'.conns && w'.conns[c].call == w.conns[c].call && (c in w'.recorded <==> c in w.recorded)
  {
  }

  // ---------------------------------------------------------------- the hooks make these runs

  /** findTargetFromConnection, where the kernel has no original destination of its own. */
  method FindTarget(hooks: Hooks, clientPort: u16) returns (target: Option<Endpoint>)
    ensures target == Answer(hooks.AsTables(), clientPort)
  {
    var optval := new byte[SIZEOF_SOCKADDR_IN](_ => 0);
    var ctx := new SockOptContext(SO_ORIGINAL_DST, AF_INET_WORD, IPPROTO_TCP, Swap16(clientPort),
                                  optval, SIZEOF_SOCKADDR_IN, -1);
    Swap16Twice(clientPort);
    var verdict := hooks.SockOpt(ctx);
    if ctx.retval != 0 {
      return None;
    }
    target := Some(Endpoint(optval[4], optval[5], optval[6], optval[7], NetworkOrder16(optval[2], optval[3])));
  }

  function AfterEvent(host: Host, t: Tables, e: Event): Tables {
    match e
    case Connect(cookie, call) => AfterConnect(host, t, cookie, call)
    case SockOp(cookie, family, op, localPort) => AfterSockOp(t, cookie, family, op, localPort)
    case Close(_) => t
    case Query(_) => t
  }

  lemma TablesAfter(host: Host, events: seq<Event>, i: nat)
    requires i < |events|
    ensures Run(host, events[..i + 1]).tables == AfterEvent(host, Run(host, events[..i]).tables, events[i])
  {
    assert events[..i + 1][..i] == events[..i] && events[..i + 1][i] == events[i];
  }

  method Fire(hooks: Hooks, e: Event) returns (answer: Option<Endpoint>)
    modifies hooks
    ensures hooks.AsTables() == AfterEvent(hooks.host, old(hooks.AsTables()), e)
    ensures e.Query? ==> answer == Answer(old(hooks.AsTables()), e.clientPort)
  {
    answer := None;
    match e {
      case Connect(cookie, call) =>
        var ctx := new SockAddrContext(call.family, call.protocol, call.userIp4, call.userPort);
        assert ctx.AsCall(call.tgid, call.nsPid) == call;
        var verdict := hooks.Connect4(ctx, cookie, call.tgid, call.nsPid);
      case SockOp(cookie, family, op, localPort) =>
        var verdict := hooks.SockOps(family, op, cookie, localPort);
      case Close(cookie) =>
      case Query(clientPort) =>
        answer := FindTarget(hooks, clientPort);
    }
  }

  ghost predicate AnswersAt(host: Host, events: seq<Event>, i: nat, answer: Option<Endpoint>)
    requires i < |events|
  {
    events[i].Query? ==> answer == Answer(Run(host, events[..i]).tables, events[i].clientPort)
  }

  /** The hooks, fired one event after another, have the effect of the run, and each query gets
      the answer of the moment. */
  method Replay(host: Host, events: seq<Event>) returns (hooks: Hooks, answers: seq<Option<Endpoint>>)
    ensures fresh(hooks) && hooks.AsTables() == Run(host, events).tables
    ensures |answers| == |events|
    ensures forall i | 0 <= i < |events| :: AnswersAt(host, events, i, answers[i])
  {
    hooks := new Hooks(host);
    answers := [];
    for i := 0 to |events|
      invariant fresh(hooks) && hooks.host == host && hooks.AsTables() == Run(host, events[..i]).tables
      invariant |answers| == i
      invariant forall j | 0 <= j < i :: AnswersAt(host, events, j, answers[j])
    {
      TablesAfter(host, events, i);
      var answer := Fire(hooks, events[i]);
      assert AnswersAt(host, events, i, answer);
      answers := answers + [answer];
    }
    assert events[..|events|] == events;
  }
}
