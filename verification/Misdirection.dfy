/** Runs in which a query is answered with the wrong endpoint: the hazards of `History`, in runs
    that the kernel permits, and each of them in a concrete run. */
module Misdirection {
  import opened Words
  import opened ByteOrder
  import opened Mirrors
  import opened Redirection
  import opened History

  /** Beyond capacity: once the table is full, a redirected socket that reuses the port of a
      closed one is taken to the closed one's endpoint. */
  lemma FullTableMisdirects(host: Host, events: seq<Event>, cookies: set<Cookie>, p: u16, c: Cookie, call: Call)
    requires GoodRun(host, events, cookies) && |Run(host, events).tables.socks| == MAX_CONNECTIONS
    requires p in Run(host, events).tables.ports
    requires forall c' | c' in Run(host, events).conns :: !HoldsPort(Run(host, events).conns[c'], p)
    requires c in cookies && c !in Run(host, events).conns && Redirects(host, call)
    ensures var reused := events + [Connect(c, call)] + [SockOp(c, AF_INET, ACTIVE_ESTABLISHED, p)];
            var w, w' := Run(host, events), Run(host, reused);
            && GoodRun(host, reused, cookies)
            && c in w'.conns && HoldsPort(w'.conns[c], p) && Wanted(w'.conns[c].call) == Wanted(call)
            && w.tables.ports[p] in w.conns
            && Answer(w'.tables, p) == Some(Wanted(w.conns[w.tables.ports[p]].call))
  {
    var w := Run(host, events);
    PortAnswers(host, events, cookies, p);
    var formerly := Wanted(w.conns[w.tables.ports[p]].call);
    AnswerExactly(host, events, p, formerly);
    var i: nat :| IsSource(host, events, p, i) && Wanted(events[i].call) == formerly;
    NoRoomFor(host, events, cookies, c);
    RefusedConnectIsMisdirected(host, events, p, i, c, call);
    PortIsReused(host, events, cookies, p, c, call);
  }

  lemma PortIsReused(host: Host, events: seq<Event>, cookies: set<Cookie>, p: u16, c: Cookie, call: Call)
    requires GoodRun(host, events, cookies)
    requires forall c' | c' in Run(host, events).conns :: !HoldsPort(Run(host, events).conns[c'], p)
    requires c in cookies && c !in Run(host, events).conns && Redirects(host, call)
    ensures var reused := events + [Connect(c, call)] + [SockOp(c, AF_INET, ACTIVE_ESTABLISHED, p)];
            var w' := Run(host, reused);
            && GoodRun(host, reused, cookies)
            && c in w'.conns && HoldsPort(w'.conns[c], p) && w'.conns[c].call == call
  {
    Extend(host, events, Connect(c, call), cookies);
    Extend(host, events + [Connect(c, call)], SockOp(c, AF_INET, ACTIVE_ESTABLISHED, p), cookies);
  }

  lemma NoRoomFor(host: Host, events: seq<Event>, cookies: set<Cookie>, c: Cookie)
    requires GoodRun(host, events, cookies) && |Run(host, events).tables.socks| == MAX_CONNECTIONS
    requires c in cookies && c !in Run(host, events).conns
    ensures !OnRecord(host, events, c.low) && |Keys(host, events)| >= MAX_CONNECTIONS
  {
    var w := Run(host, events);
    InvHolds(host, events, cookies);
    LowIsNew(w.recorded, w.tables.socks, w.conns, c, cookies);
    SocksAreTold(host, events);
    assert KeyTold(host, events, w.tables.socks, c.low);
    assert |w.tables.socks.Keys| == MAX_CONNECTIONS;
  }

  /** What the tables say of the port of a live recorded socket, in terms of the history. */
  lemma OwnLink(host: Host, events: seq<Event>, cookies: set<Cookie>, c: Cookie) returns (j: nat)
    requires GoodRun(host, events, cookies)
    requires c in Run(host, events).conns && c in Run(host, events).recorded
    requires Run(host, events).conns[c].live && Run(host, events).conns[c].port.Some?
    ensures var port := Run(host, events).conns[c].port.value;
            Linked(host, events, port) && IsLastLink(host, events, j, port) && events[j].cookie == c
  {
    var w := Run(host, events);
    InvHolds(host, events, cookies);
    PortsAreTold(host, events);
    var port := w.conns[c].port.value;
    assert PortTold(host, events, w.tables.ports, port);
    j :| IsLastLink(host, events, j, port) && events[j].cookie == c;
  }

  /** Without distinct low halves: a later redirected connect whose cookie shares the low half of
      a recorded socket's takes over the answer to that socket's queries. */
  lemma CollisionOverwrites(host: Host, events: seq<Event>, cookies: set<Cookie>, c: Cookie, rival: Cookie, call: Call)
    requires GoodRun(host, events, cookies)
    requires c in Run(host, events).conns && c in Run(host, events).recorded
    requires Run(host, events).conns[c].live && Run(host, events).conns[c].port.Some?
    requires rival !in Run(host, events).conns && rival.low == c.low && Redirects(host, call)
    ensures var later := events + [Connect(rival, call)];
            var conn := Run(host, events).conns[c];
            && Legal(host, later)
            && c in Run(host, later).conns && Run(host, later).conns[c] == conn
            && Answer(Run(host, later).tables, conn.port.value) == Some(Wanted(call))
  {
    assert (events + [Connect(rival, call)])[..|events|] == events;
    var j := OwnLink(host, events, cookies, c);
    ConnectTakesOver(host, events, Run(host, events).conns[c].port.value, j, rival, call);
  }

  /** And a bystander that was never redirected, but shares the low half of a recorded socket,
      diverts the queries for its local port to what that socket, or the last redirected connect
      under the shared key, asked for. The kernel may well give it the port of a redirected one. */
  lemma BystanderDiverts(host: Host, events: seq<Event>, c: Cookie, port: u16, d: Cookie, i: nat)
    requires Legal(host, events) && Linked(host, events, port)
    requires c in Run(host, events).conns && HoldsPort(Run(host, events).conns[c], port)
    requires d in Run(host, events).conns && !Run(host, events).conns[d].redirected
    requires Run(host, events).conns[d].live && Run(host, events).conns[d].port.None?
    requires OnRecord(host, events, d.low) && IsLastStore(host, events, i, d.low)
    requires forall c' | c' in Run(host, events).conns && c' != c :: !HoldsPort(Run(host, events).conns[c'], port)
    ensures var later := events + [SockOp(d, AF_INET, ACTIVE_ESTABLISHED, port)];
            && Legal(host, later)
            && c in Run(host, later).conns && Run(host, later).conns[c] == Run(host, events).conns[c]
            && (forall c' | c' in Run(host, later).conns && c' != c :: !HoldsPort(Run(host, later).conns[c'], port))
            && Answer(Run(host, later).tables, port) == Some(Wanted(events[i].call))
  {
    assert (events + [SockOp(d, AF_INET, ACTIVE_ESTABLISHED, port)])[..|events|] == events;
    EstablishmentTakesOver(host, events, port, i, d);
  }

  // ---------------------------------------------------------------- concrete runs

  const EXAMPLE_HOST := Host(Some(Config(0x7F00_0001, 18000, 1, 0x0AF4_0000, 16, 0)), {7}, 0)

  /** A connect() to 10.244.0.`last`, port 80, by process 7. */
  function ExampleCall(last: byte): Call {
    Call(AF_INET, IPPROTO_TCP, Word(10, 244, 0, last), 0x5000, 7, 7)
  }

  lemma ExampleRedirects(last: byte)
    ensures Redirects(EXAMPLE_HOST, ExampleCall(last))
    ensures Wanted(ExampleCall(last)) == Endpoint(10, 244, 0, last, 80)
  {
    WordBytes(10, 244, 0, last);
    assert HostAddress(ExampleCall(last)) == Word(last, 0, 244, 10);
    assert Pow2(32 - 16) == 0x1_0000 by {
      assert Pow2(8) == 0x100;
    }
    assert InPod(EXAMPLE_HOST.conf.value, 0, HostAddress(ExampleCall(last)));
  }

  const FIRST := Cookie(7, 0)
  const RIVAL := Cookie(7, 1)

  function ExampleEvents(): seq<Event> {
    [Connect(FIRST, ExampleCall(5))] + [SockOp(FIRST, AF_INET, ACTIVE_ESTABLISHED, 40000)]
  }

  lemma ExampleConnect()
    ensures GoodRun(EXAMPLE_HOST, [Connect(FIRST, ExampleCall(5))], {FIRST})
    ensures var call := ExampleCall(5);
            Run(EXAMPLE_HOST, [Connect(FIRST, call)]) ==
            World(Tables(map[FIRST.low := Record(call)], map[]),
                  map[FIRST := Conn(call, Record(call), true, None, true)], {FIRST})
  {
    var connect := Connect(FIRST, ExampleCall(5));
    ExampleRedirects(5);
    Extend(EXAMPLE_HOST, [], connect, {FIRST});
    assert [] + [connect] == [connect];
  }

  lemma ExampleRun()
    ensures GoodRun(EXAMPLE_HOST, ExampleEvents(), {FIRST})
    ensures var (w, call) := (Run(EXAMPLE_HOST, ExampleEvents()), ExampleCall(5));
            && w.conns == map[FIRST := Conn(call, Record(call), true, Some(40000), true)]
            && w.tables.ports == map[40000 := FIRST]
            && FIRST in w.recorded
  {
    ExampleConnect();
    Extend(EXAMPLE_HOST, [Connect(FIRST, ExampleCall(5))], SockOp(FIRST, AF_INET, ACTIVE_ESTABLISHED, 40000), {FIRST});
  }

  /** Two cookies that differ in their high words only: the first socket's query is answered with
      the second one's destination. */
  lemma CollisionExample()
    ensures var events := ExampleEvents() + [Connect(RIVAL, ExampleCall(9))];
            && Legal(EXAMPLE_HOST, events)
            && FIRST in Run(EXAMPLE_HOST, events).conns
            && HoldsPort(Run(EXAMPLE_HOST, events).conns[FIRST], 40000)
            && Wanted(Run(EXAMPLE_HOST, events).conns[FIRST].call) == Endpoint(10, 244, 0, 5, 80)
            && Answer(Run(EXAMPLE_HOST, events).tables, 40000) == Some(Endpoint(10, 244, 0, 9, 80))
  {
    ExampleRun();
    ExampleRedirects(5);
    ExampleRedirects(9);
    CollisionOverwrites(EXAMPLE_HOST, ExampleEvents(), {FIRST}, FIRST, RIVAL, ExampleCall(9));
  }

  const OTHER := Cookie(8, 0)
  const BYSTANDER := Cookie(8, 1)

  /** A connect() to 8.8.8.8, port 80, which the pod's block does not hold. */
  const OUTSIDE_CALL := Call(AF_INET, IPPROTO_TCP, Word(8, 8, 8, 8), 0x5000, 7, 7)

  lemma OutsideIsNotRedirected()
    ensures !Redirects(EXAMPLE_HOST, OUTSIDE_CALL)
  {
    WordBytes(8, 8, 8, 8);
    assert Pow2(32 - 16) == 0x1_0000 by {
      assert Pow2(8) == 0x100;
    }
    assert !InPod(EXAMPLE_HOST.conf.value, 0, HostAddress(OUTSIDE_CALL));
  }

  /** `first` is redirected and gets the port; `other` is redirected; a third socket, which shares
      the low half of `other`, is not. */
  function BystanderEvents(first: Cookie, firstCall: Call, port: u16, other: Cookie, otherCall: Call,
                           bystander: Cookie, outside: Call): seq<Event> {
    [Connect(first, firstCall)] + [SockOp(first, AF_INET, ACTIVE_ESTABLISHED, port)] +
    [Connect(other, otherCall)] + [Connect(bystander, outside)]
  }

  lemma BystanderRun(host: Host, first: Cookie, firstCall: Call, port: u16, other: Cookie, otherCall: Call,
                     bystander: Cookie, outside: Call)
    requires first.low != other.low && other.low == bystander.low && other != bystander
    requires Redirects(host, firstCall) && Redirects(host, otherCall) && !Redirects(host, outside)
    ensures var events := BystanderEvents(first, firstCall, port, other, otherCall, bystander, outside);
            var w := Run(host, events);
            && Legal(host, events)
            && w.conns == map[first := Conn(firstCall, Record(firstCall), true, Some(port), true),
                              other := Conn(otherCall, Record(otherCall), true, None, true),
                              bystander := Conn(outside, Record(outside), false, None, true)]
            && w.tables.ports == map[port := first] && other.low in w.tables.socks
  {
    var connect, sockOp := Connect(first, firstCall), SockOp(first, AF_INET, ACTIVE_ESTABLISHED, port);
    ExtendLegal(host, [], connect);
    assert [] + [connect] == [connect];
    ExtendLegal(host, [connect], sockOp);
    assert Run(host, [connect] + [sockOp]).tables == Tables(map[first.low := Record(firstCall)], map[port := first]);
    ExtendLegal(host, [connect] + [sockOp], Connect(other, otherCall));
    ExtendLegal(host, [connect] + [sockOp] + [Connect(other, otherCall)], Connect(bystander, outside));
  }

  lemma InTables(host: Host, events: seq<Event>, key: u32, port: u16)
    requires key in Run(host, events).tables.socks && port in Run(host, events).tables.ports
    ensures OnRecord(host, events, key) && Linked(host, events, port)
  {
    SocksAreTold(host, events);
    PortsAreTold(host, events);
    assert KeyTold(host, events, Run(host, events).tables.socks, key);
    assert PortTold(host, events, Run(host, events).tables.ports, port);
  }

  lemma BystanderTakesPort(host: Host, first: Cookie, firstCall: Call, port: u16, other: Cookie, otherCall: Call,
                           bystander: Cookie, outside: Call)
    requires first.low != other.low && other.low == bystander.low && other != bystander
    requires Redirects(host, firstCall) && Redirects(host, otherCall) && !Redirects(host, outside)
    ensures var events := BystanderEvents(first, firstCall, port, other, otherCall, bystander, outside) +
                          [SockOp(bystander, AF_INET, ACTIVE_ESTABLISHED, port)];
            && Legal(host, events)
            && first in Run(host, events).conns && HoldsPort(Run(host, events).conns[first], port)
            && Run(host, events).conns[first].call == firstCall
            && Answer(Run(host, events).tables, port) == Some(Wanted(otherCall))
  {
    var events := BystanderEvents(first, firstCall, port, other, otherCall, bystander, outside);
    BystanderRun(host, first, firstCall, port, other, otherCall, bystander, outside);
    InTables(host, events, other.low, port);
    assert IsLastStore(host, events, 2, other.low);
    BystanderDiverts(host, events, first, port, bystander, 2);
  }

  /** FIRST was redirected on its way to 10.244.0.5. A socket to the outside gets the same local
      port, and FIRST's query is answered with what a third socket asked for. */
  lemma BystanderExample()
    ensures var before := BystanderEvents(FIRST, ExampleCall(5), 40000, OTHER, ExampleCall(9), BYSTANDER, OUTSIDE_CALL);
            var events := before + [SockOp(BYSTANDER, AF_INET, ACTIVE_ESTABLISHED, 40000)];
            && Legal(EXAMPLE_HOST, events)
            && FIRST in Run(EXAMPLE_HOST, events).conns
            && HoldsPort(Run(EXAMPLE_HOST, events).conns[FIRST], 40000)
            && Wanted(Run(EXAMPLE_HOST, events).conns[FIRST].call) == Endpoint(10, 244, 0, 5, 80)
            && Answer(Run(EXAMPLE_HOST, events).tables, 40000) == Some(Endpoint(10, 244, 0, 9, 80))
  {
    ExampleRedirects(5);
    ExampleRedirects(9);
    OutsideIsNotRedirected();
    BystanderTakesPort(EXAMPLE_HOST, FIRST, ExampleCall(5), 40000, OTHER, ExampleCall(9), BYSTANDER, OUTSIDE_CALL);
  }

  // ---------------------------------------------------------------- a full table

  function Numbered(k: nat): Cookie
    requires k <= MAX_CONNECTIONS
  {
    Cookie(k, 0)
  }

  ghost const NUMBERED: set<Cookie> := set k: nat | k <= MAX_CONNECTIONS :: Numbered(k)

  function FreedPort(c: Cookie, call: Call, port: u16): seq<Event> {
    [Connect(c, call)] + [SockOp(c, AF_INET, ACTIVE_ESTABLISHED, port)] + [Close(c)]
  }

  lemma PortIsFreed(host: Host, c: Cookie, call: Call, port: u16, cookies: set<Cookie>)
    requires Redirects(host, call) && c in cookies && DistinctLow(cookies)
    ensures var events := FreedPort(c, call, port);
            && GoodRun(host, events, cookies)
            && Run(host, events) ==
               World(Tables(map[c.low := Record(call)], map[port := c]),
                     map[c := Conn(call, Record(call), true, Some(port), false)], {c})
  {
    var connect, sockOp := Connect(c, call), SockOp(c, AF_INET, ACTIVE_ESTABLISHED, port);
    Extend(host, [], connect, cookies);
    assert [] + [connect] == [connect];
    Extend(host, [connect], sockOp, cookies);
    Extend(host, [connect] + [sockOp], Close(c), cookies);
  }

  /** Socket 0 gets port 40000 and closes; n more sockets are redirected. */
  function Fill(n: nat): seq<Event>
    requires n < MAX_CONNECTIONS
  {
    if n == 0 then FreedPort(Numbered(0), ExampleCall(5), 40000)
    else Fill(n - 1) + [Connect(Numbered(n), ExampleCall(5))]
  }

  ghost predicate Filled(n: nat, w: World)
    requires n < MAX_CONNECTIONS
  {
    && (forall c | c in w.conns :: c.low <= n && !HoldsPort(w.conns[c], 40000))
    && (forall key | key in w.tables.socks :: key <= n) && |w.tables.socks| == n + 1
    && 40000 in w.tables.ports && w.tables.ports[40000] == Numbered(0)
    && Numbered(0) in w.conns && w.conns[Numbered(0)].call == ExampleCall(5)
  }

  lemma FillStarts()
    ensures GoodRun(EXAMPLE_HOST, Fill(0), NUMBERED) && Filled(0, Run(EXAMPLE_HOST, Fill(0)))
  {
    ExampleRedirects(5);
    PortIsFreed(EXAMPLE_HOST, Numbered(0), ExampleCall(5), 40000, NUMBERED);
  }

  lemma {:induction false} FillRuns(n: nat)
    requires n < MAX_CONNECTIONS
    ensures GoodRun(EXAMPLE_HOST, Fill(n), NUMBERED) && Filled(n, Run(EXAMPLE_HOST, Fill(n)))
  {
    if n == 0 {
      FillStarts();
    } else {
      FillRuns(n - 1);
      ExampleRedirects(5);
      Extend(EXAMPLE_HOST, Fill(n - 1), Connect(Numbered(n), ExampleCall(5)), NUMBERED);
    }
  }

  /** 20000 sockets fill the table; one more, at a port that was freed long ago, is told to go where
      the port's first holder went. */
  lemma FullTableExample()
    ensures var last := Numbered(MAX_CONNECTIONS);
            var events := Fill(MAX_CONNECTIONS - 1) + [Connect(last, ExampleCall(9))] +
                          [SockOp(last, AF_INET, ACTIVE_ESTABLISHED, 40000)];
            && GoodRun(EXAMPLE_HOST, events, NUMBERED)
            && last in Run(EXAMPLE_HOST, events).conns
            && HoldsPort(Run(EXAMPLE_HOST, events).conns[last], 40000)
            && Wanted(Run(EXAMPLE_HOST, events).conns[last].call) == Endpoint(10, 244, 0, 9, 80)
            && Answer(Run(EXAMPLE_HOST, events).tables, 40000) == Some(Endpoint(10, 244, 0, 5, 80))
  {
    FillRuns(MAX_CONNECTIONS - 1);
    ExampleRedirects(5);
    ExampleRedirects(9);
    var last := Numbered(MAX_CONNECTIONS);
    FullTableMisdirects(EXAMPLE_HOST, Fill(MAX_CONNECTIONS - 1), NUMBERED, 40000, last, ExampleCall(9));
  }
}
