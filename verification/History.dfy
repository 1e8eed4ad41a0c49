/** What a query answers, told from the history of events alone: for any run of the hooks, whatever
    the cookies, the ports and the order of events; and the runs in which the answer is wrong. */
module History {
  import opened Words
  import opened Mirrors
  import opened Redirection

  // ---------------------------------------------------------------- stores and links

  /** A redirected connect whose record goes under this key. */
  predicate Stores(host: Host, e: Event, key: u32) {
    e.Connect? && Redirects(host, e.call) && e.cookie.low == key
  }

  /** The keys of all redirected connects. */
  function Keys(host: Host, events: seq<Event>): set<u32> {
    set i | 0 <= i < |events| && events[i].Connect? && Stores(host, events[i], events[i].cookie.low) ::
      events[i].cookie.low
  }

  /** Some redirected connect under the key came while the table had room for a new one. */
  ghost predicate OnRecord(host: Host, events: seq<Event>, key: u32) {
    exists i :: 0 <= i < |events| && Stores(host, events[i], key) && |Keys(host, events[..i])| < MAX_CONNECTIONS
  }

  /** An establishment at this port, of a socket whose key was on record then. */
  ghost predicate Links(host: Host, events: seq<Event>, j: nat, port: u16) {
    && j < |events| && events[j].SockOp? && IsEstablished(events[j].family, events[j].op)
    && events[j].localPort == port
    && OnRecord(host, events[..j], events[j].cookie.low)
  }

  ghost function LinkedPorts(host: Host, events: seq<Event>): set<u16> {
    set j: nat | 0 <= j < |events| && events[j].SockOp? && Links(host, events, j, events[j].localPort) ::
      events[j].localPort
  }

  /** Some such establishment came while the port table had room for a new port. */
  ghost predicate Linked(host: Host, events: seq<Event>, port: u16) {
    exists j: nat :: Links(host, events, j, port) && |LinkedPorts(host, events[..j])| < MAX_CONNECTIONS
  }

  ghost predicate IsLastStore(host: Host, events: seq<Event>, i: nat, key: u32) {
    && i < |events| && Stores(host, events[i], key)
    && forall k | i < k < |events| :: !Stores(host, events[k], key)
  }

  ghost predicate IsLastLink(host: Host, events: seq<Event>, j: nat, port: u16) {
    && Links(host, events, j, port)
    && forall k: nat | j < k < |events| :: !Links(host, events, k, port)
  }

  // ---------------------------------------------------------------- one more event

  lemma KeysAfter(host: Host, before: seq<Event>, e: Event)
    ensures Keys(host, before + [e]) ==
            Keys(host, before) + (if e.Connect? && Redirects(host, e.call) then {e.cookie.low} else {})
  {
    var events := before + [e];
    assert events[|before|] == e;
    assert forall i | 0 <= i < |before| :: events[i] == before[i];
  }

  lemma OnRecordAfter(host: Host, before: seq<Event>, e: Event, key: u32)
    ensures OnRecord(host, before + [e], key) <==>
            OnRecord(host, before, key) || (Stores(host, e, key) && |Keys(host, before)| < MAX_CONNECTIONS)
  {
    var events := before + [e];
    assert events[|before|] == e && events[..|before|] == before;
    assert forall i | 0 <= i < |before| :: events[i] == before[i] && events[..i] == before[..i];
  }

  lemma LinksBefore(host: Host, before: seq<Event>, e: Event, j: nat, port: u16)
    requires j < |before|
    ensures Links(host, before + [e], j, port) <==> Links(host, before, j, port)
  {
    assert (before + [e])[j] == before[j] && (before + [e])[..j] == before[..j];
  }

  lemma LinksNow(host: Host, before: seq<Event>, e: Event, port: u16)
    ensures Links(host, before + [e], |before|, port) <==>
            && e.SockOp? && IsEstablished(e.family, e.op) && e.localPort == port
            && OnRecord(host, before, e.cookie.low)
  {
    assert (before + [e])[|before|] == e && (before + [e])[..|before|] == before;
  }

  lemma LinkedPortsAfter(host: Host, before: seq<Event>, e: Event)
    ensures LinkedPorts(host, before + [e]) ==
            LinkedPorts(host, before) +
            (if e.SockOp? && Links(host, before + [e], |before|, e.localPort) then {e.localPort} else {})
  {
    var events := before + [e];
    assert events[|before|] == e;
    forall j: nat | j < |before|
      ensures events[j] == before[j]
      ensures events[j].SockOp? ==>
                (Links(host, events, j, events[j].localPort) <==> Links(host, before, j, before[j].localPort))
    {
      if events[j].SockOp? {
        LinksBefore(host, before, e, j, events[j].localPort);
      }
    }
  }

  lemma LinkedAfter(host: Host, before: seq<Event>, e: Event, port: u16)
    ensures Linked(host, before + [e], port) <==>
            || Linked(host, before, port)
            || (Links(host, before + [e], |before|, port) && |LinkedPorts(host, before)| < MAX_CONNECTIONS)
  {
    var events := before + [e];
    assert events[..|before|] == before;
    forall j: nat | j < |before|
      ensures events[..j] == before[..j] && (Links(host, events, j, port) <==> Links(host, before, j, port))
    {
      LinksBefore(host, before, e, j, port);
    }
  }

  // ---------------------------------------------------------------- the tables, from the history

  /** A table filled by Put: which keys it has among those ever put. */
  predicate Fills<K>(keys: set<K>, asked: set<K>) {
    && keys <= asked && |keys| <= MAX_CONNECTIONS
    && (|asked| <= MAX_CONNECTIONS ==> keys == asked)
    && (|asked| > MAX_CONNECTIONS ==> |keys| == MAX_CONNECTIONS)
  }

  lemma PutFills<K, V>(m: map<K, V>, asked: set<K>, k: K, v: V)
    requires Fills(m.Keys, asked)
    ensures Fills(Put(m, k, v).Keys, asked + {k})
    ensures k in Put(m, k, v) <==> k in m || |asked| < MAX_CONNECTIONS
  {
    assert m[k := v].Keys == m.Keys + {k};
    if k in m {
      assert asked + {k} == asked;
    } else if k in asked {
      SubsetFits(m.Keys, asked);
      assert asked + {k} == asked;
    }
  }

  /** The record table: a key is there exactly when it is on record, with the last endpoint that
      a redirected connect under it asked for. */
  ghost predicate SocksTell(host: Host, events: seq<Event>, socks: map<u32, Socket>) {
    && Fills(socks.Keys, Keys(host, events))
    && forall key :: KeyTold(host, events, socks, key)
  }

  ghost predicate KeyTold(host: Host, events: seq<Event>, socks: map<u32, Socket>, key: u32) {
    && (key in socks <==> OnRecord(host, events, key))
    && (key in socks ==> HasLastStore(host, events, key, socks[key]))
  }

  ghost predicate HasLastStore(host: Host, events: seq<Event>, key: u32, sock: Socket) {
    exists i: nat :: IsLastStore(host, events, i, key) && sock == Record(events[i].call)
  }

  lemma LastStoreAfter(host: Host, before: seq<Event>, e: Event, key: u32, sock: Socket)
    requires if Stores(host, e, key) then sock == Record(e.call) else HasLastStore(host, before, key, sock)
    ensures HasLastStore(host, before + [e], key, sock)
  {
    var events := before + [e];
    if Stores(host, e, key) {
      assert IsLastStore(host, events, |before|, key);
    } else {
      var i: nat :| IsLastStore(host, before, i, key) && sock == Record(before[i].call);
      assert IsLastStore(host, events, i, key);
    }
  }

  lemma {:induction false} SocksAreTold(host: Host, events: seq<Event>)
    ensures SocksTell(host, events, Run(host, events).tables.socks)
  {
    if events == [] {
    } else {
      var before, e := events[..|events| - 1], events[|events| - 1];
      assert events == before + [e];
      SocksAreTold(host, before);
      SocksToldAfter(host, before, e, Run(host, before).tables);
    }
  }

  lemma SocksToldAfter(host: Host, before: seq<Event>, e: Event, t: Tables)
    requires SocksTell(host, before, t.socks)
    ensures SocksTell(host, before + [e], AfterEvent(host, t, e).socks)
  {
    SocksFilledAfter(host, before, e, t);
    forall key
      ensures KeyTold(host, before + [e], AfterEvent(host, t, e).socks, key)
    {
      KeyToldAfter(host, before, e, t, key);
    }
  }

  lemma SocksFilledAfter(host: Host, before: seq<Event>, e: Event, t: Tables)
    requires Fills(t.socks.Keys, Keys(host, before))
    ensures Fills(AfterEvent(host, t, e).socks.Keys, Keys(host, before + [e]))
  {
    KeysAfter(host, before, e);
    if e.Connect? && Redirects(host, e.call) {
      PutFills(t.socks, Keys(host, before), e.cookie.low, Record(e.call));
    }
  }

  lemma KeyToldAfter(host: Host, before: seq<Event>, e: Event, t: Tables, key: u32)
    requires Fills(t.socks.Keys, Keys(host, before)) && KeyTold(host, before, t.socks, key)
    ensures KeyTold(host, before + [e], AfterEvent(host, t, e).socks, key)
  {
    var socks := AfterEvent(host, t, e).socks;
    OnRecordAfter(host, before, e, key);
    if Stores(host, e, key) {
      PutFills(t.socks, Keys(host, before), key, Record(e.call));
    }
    if key in socks {
      LastStoreAfter(host, before, e, key, socks[key]);
    }
  }

  /** The port table, likewise. */
  ghost predicate PortsTell(host: Host, events: seq<Event>, ports: map<u16, Cookie>) {
    && Fills(ports.Keys, LinkedPorts(host, events))
    && forall port :: PortTold(host, events, ports, port)
  }

  ghost predicate PortTold(host: Host, events: seq<Event>, ports: map<u16, Cookie>, port: u16) {
    && (port in ports <==> Linked(host, events, port))
    && (port in ports ==> HasLastLink(host, events, port, ports[port]))
  }

  ghost predicate HasLastLink(host: Host, events: seq<Event>, port: u16, cookie: Cookie) {
    exists j: nat :: IsLastLink(host, events, j, port) && cookie == events[j].cookie
  }

  lemma LastLinkAfter(host: Host, before: seq<Event>, e: Event, port: u16, cookie: Cookie)
    requires if Links(host, before + [e], |before|, port) then cookie == e.cookie
             else HasLastLink(host, before, port, cookie)
    ensures HasLastLink(host, before + [e], port, cookie)
  {
    var events := before + [e];
    if Links(host, events, |before|, port) {
      assert IsLastLink(host, events, |before|, port);
    } else {
      var j: nat :| IsLastLink(host, before, j, port) && cookie == before[j].cookie;
      LastLinkStays(host, before, e, j, port);
    }
  }

  lemma {:induction false} PortsAreTold(host: Host, events: seq<Event>)
    ensures PortsTell(host, events, Run(host, events).tables.ports)
  {
    if events == [] {
    } else {
      var before, e := events[..|events| - 1], events[|events| - 1];
      assert events == before + [e];
      PortsAreTold(host, before);
      SocksAreTold(host, before);
      assert e.SockOp? ==> KeyTold(host, before, Run(host, before).tables.socks, e.cookie.low);
      PortsToldAfter(host, before, e, Run(host, before).tables);
    }
  }

  lemma PortsToldAfter(host: Host, before: seq<Event>, e: Event, t: Tables)
    requires PortsTell(host, before, t.ports)
    requires e.SockOp? ==> KeyTold(host, before, t.socks, e.cookie.low)
    ensures PortsTell(host, before + [e], AfterEvent(host, t, e).ports)
  {
    PortsFilledAfter(host, before, e, t);
    forall port
      ensures PortTold(host, before + [e], AfterEvent(host, t, e).ports, port)
    {
      PortToldAfter(host, before, e, t, port);
    }
  }

  lemma PortsFilledAfter(host: Host, before: seq<Event>, e: Event, t: Tables)
    requires Fills(t.ports.Keys, LinkedPorts(host, before))
    requires e.SockOp? ==> KeyTold(host, before, t.socks, e.cookie.low)
    ensures Fills(AfterEvent(host, t, e).ports.Keys, LinkedPorts(host, before + [e]))
  {
    LinkedPortsAfter(host, before, e);
    if e.SockOp? {
      LinksNow(host, before, e, e.localPort);
      PutFills(t.ports, LinkedPorts(host, before), e.localPort, e.cookie);
    }
  }

  lemma PortToldAfter(host: Host, before: seq<Event>, e: Event, t: Tables, port: u16)
    requires Fills(t.ports.Keys, LinkedPorts(host, before)) && PortTold(host, before, t.ports, port)
    requires e.SockOp? ==> KeyTold(host, before, t.socks, e.cookie.low)
    ensures PortTold(host, before + [e], AfterEvent(host, t, e).ports, port)
  {
    var ports := AfterEvent(host, t, e).ports;
    LinksNow(host, before, e, port);
    LinkedAfter(host, before, e, port);
    if Links(host, before + [e], |before|, port) {
      PutFills(t.ports, LinkedPorts(host, before), port, e.cookie);
    }
    if port in ports {
      LastLinkAfter(host, before, e, port, ports[port]);
    }
  }

  // ---------------------------------------------------------------- the answer, exactly

  lemma LastStoreIsUnique(host: Host, events: seq<Event>, i1: nat, i2: nat, key: u32)
    requires IsLastStore(host, events, i1, key) && IsLastStore(host, events, i2, key)
    ensures i1 == i2
  {
  }

  lemma LastLinkIsUnique(host: Host, events: seq<Event>, j1: nat, j2: nat, port: u16)
    requires IsLastLink(host, events, j1, port) && IsLastLink(host, events, j2, port)
    ensures j1 == j2
  {
  }

  /** Connect number i is the one whose request answers queries for the port. */
  ghost predicate IsSource(host: Host, events: seq<Event>, port: u16, i: nat) {
    && Linked(host, events, port)
    && exists j: nat :: IsLastLink(host, events, j, port) && IsLastStore(host, events, i, events[j].cookie.low)
  }

  /** In any run at all, a query is answered with `target` exactly when the port was linked and
      `target` is what the last redirected connect asked for among those that share their key with
      the socket linked to the port last. */
  lemma AnswerExactly(host: Host, events: seq<Event>, port: u16, target: Endpoint)
    ensures Answer(Run(host, events).tables, port) == Some(target) <==>
            exists i: nat :: IsSource(host, events, port, i) && Wanted(events[i].call) == target
  {
    var t := Run(host, events).tables;
    SocksAreTold(host, events);
    PortsAreTold(host, events);
    assert PortTold(host, events, t.ports, port);
    if port in t.ports {
      var j: nat :| IsLastLink(host, events, j, port) && t.ports[port] == events[j].cookie;
      LinkStays(host, events, j, port);
      var key := events[j].cookie.low;
      assert KeyTold(host, events, t.socks, key);
      var i: nat :| IsLastStore(host, events, i, key) && t.socks[key] == Record(events[i].call);
      assert IsSource(host, events, port, i);
      ByteOrderRoundTrip(events[i].call, AF_INET_WORD);
      forall i': nat | IsSource(host, events, port, i')
        ensures i' == i
      {
        SourceIsUnique(host, events, port, i, i');
      }
    }
  }

  lemma SourceIsUnique(host: Host, events: seq<Event>, port: u16, i1: nat, i2: nat)
    requires IsSource(host, events, port, i1) && IsSource(host, events, port, i2)
    ensures i1 == i2
  {
    var j1: nat :| IsLastLink(host, events, j1, port) && IsLastStore(host, events, i1, events[j1].cookie.low);
    var j2: nat :| IsLastLink(host, events, j2, port) && IsLastStore(host, events, i2, events[j2].cookie.low);
    LastLinkIsUnique(host, events, j1, j2, port);
    LastStoreIsUnique(host, events, i1, i2, events[j1].cookie.low);
  }

  /** What was on record stays so. */
  lemma LinkStays(host: Host, events: seq<Event>, j: nat, port: u16)
    requires Links(host, events, j, port)
    ensures OnRecord(host, events, events[j].cookie.low)
  {
    var key, front := events[j].cookie.low, events[..j];
    var i :| 0 <= i < |front| && Stores(host, front[i], key) && |Keys(host, front[..i])| < MAX_CONNECTIONS;
    assert front[i] == events[i] && front[..i] == events[..i];
  }

  lemma KeysGrow(host: Host, events: seq<Event>, i: nat, k: nat)
    requires i <= k <= |events|
    ensures |Keys(host, events[..i])| <= |Keys(host, events[..k])|
  {
    assert forall n | 0 <= n < i :: events[..i][n] == events[..k][n];
    SubsetFits(Keys(host, events[..i]), Keys(host, events[..k]));
  }

  /** A redirected connect that left its key off the record left no room for it later either. */
  lemma OnRecordSince(host: Host, events: seq<Event>, a: nat, b: nat, j: nat, key: u32)
    requires a < b <= |events| && j <= |events| && Stores(host, events[a], key)
    requires OnRecord(host, events[..j], key)
    ensures OnRecord(host, events[..b], key)
  {
    var early, late := events[..b], events[..j];
    var i :| 0 <= i < |late| && Stores(host, late[i], key) && |Keys(host, late[..i])| < MAX_CONNECTIONS;
    assert late[i] == events[i] && late[..i] == events[..i];
    if i > a {
      KeysGrow(host, events, a, i);
      assert early[a] == events[a] && early[..a] == events[..a];
    } else {
      assert early[i] == events[i] && early[..i] == events[..i];
    }
  }

  /** No hazard struck the socket whose connect is event a and whose establishment is event b: the
      record table and the port table had room, no later redirected connect took the key, and the
      port was linked last under the same key. */
  ghost predicate Undisturbed(host: Host, events: seq<Event>, a: nat, b: nat)
    requires a < b < |events| && events[a].Connect? && events[b].SockOp?
  {
    var (key, port) := (events[a].cookie.low, events[b].localPort);
    && OnRecord(host, events[..b], key)
    && Linked(host, events, port)
    && (forall k | a < k < |events| :: !Stores(host, events[k], key))
    && exists j: nat :: IsLastLink(host, events, j, port) && events[j].cookie.low == key
  }

  /** A socket's own connect answers the queries for its port exactly when no hazard struck. */
  lemma OwnConnectAnswersExactly(host: Host, events: seq<Event>, a: nat, b: nat)
    requires a < b < |events| && events[a].Connect? && Redirects(host, events[a].call)
    requires events[b].SockOp? && IsEstablished(events[b].family, events[b].op) && events[b].cookie == events[a].cookie
    ensures IsSource(host, events, events[b].localPort, a) <==> Undisturbed(host, events, a, b)
  {
    var (key, port) := (events[a].cookie.low, events[b].localPort);
    if IsSource(host, events, port, a) {
      var j: nat :| IsLastLink(host, events, j, port) && IsLastStore(host, events, a, events[j].cookie.low);
      OnRecordSince(host, events, a, b, j, key);
    }
  }

  /** When a query is right, in any run at all: exactly when no hazard struck, or the connect that
      answers instead asked for the same endpoint. */
  lemma QueryIsRightExactlyWhen(host: Host, events: seq<Event>, a: nat, b: nat)
    requires a < b < |events| && events[a].Connect? && Redirects(host, events[a].call)
    requires events[b].SockOp? && IsEstablished(events[b].family, events[b].op) && events[b].cookie == events[a].cookie
    ensures var port := events[b].localPort;
            Answer(Run(host, events).tables, port) == Some(Wanted(events[a].call)) <==>
              || Undisturbed(host, events, a, b)
              || exists i: nat ::
                   i != a && IsSource(host, events, port, i) && Wanted(events[i].call) == Wanted(events[a].call)
  {
    AnswerExactly(host, events, events[b].localPort, Wanted(events[a].call));
    OwnConnectAnswersExactly(host, events, a, b);
  }

  // ---------------------------------------------------------------- takeovers

  /** A later redirected connect under the key of the socket linked to a port takes over the
      answers for the port. */
  lemma ConnectTakesOver(host: Host, events: seq<Event>, port: u16, j: nat, rival: Cookie, call: Call)
    requires Linked(host, events, port) && IsLastLink(host, events, j, port)
    requires rival.low == events[j].cookie.low && Redirects(host, call)
    ensures Answer(Run(host, events + [Connect(rival, call)]).tables, port) == Some(Wanted(call))
  {
    var e := Connect(rival, call);
    LinkedAfter(host, events, e, port);
    LinksNow(host, events, e, port);
    assert HasLastLink(host, events, port, events[j].cookie);
    LastLinkAfter(host, events, e, port, events[j].cookie);
    assert IsLastStore(host, events + [e], |events|, rival.low);
    assert IsSource(host, events + [e], port, |events|);
    AnswerExactly(host, events + [e], port, Wanted(call));
  }

  /** A later establishment at the port takes over its queries, whether or not the socket itself
      was redirected: what counts is that its key is on record. */
  lemma EstablishmentTakesOver(host: Host, events: seq<Event>, port: u16, i: nat, other: Cookie)
    requires OnRecord(host, events, other.low) && IsLastStore(host, events, i, other.low)
    requires Linked(host, events, port)
    ensures Answer(Run(host, events + [SockOp(other, AF_INET, ACTIVE_ESTABLISHED, port)]).tables, port) ==
            Some(Wanted(events[i].call))
  {
    var e := SockOp(other, AF_INET, ACTIVE_ESTABLISHED, port);
    LinkedAfter(host, events, e, port);
    LinksNow(host, events, e, port);
    assert IsLastLink(host, events + [e], |events|, port);
    assert IsLastStore(host, events + [e], i, other.low);
    assert IsSource(host, events + [e], port, i);
    AnswerExactly(host, events + [e], port, Wanted(events[i].call));
  }

  lemma LastLinkStays(host: Host, events: seq<Event>, e: Event, j: nat, port: u16)
    requires IsLastLink(host, events, j, port) && !Links(host, events + [e], |events|, port)
    ensures IsLastLink(host, events + [e], j, port)
  {
    forall k: nat | k < |events|
      ensures Links(host, events + [e], k, port) <==> Links(host, events, k, port)
    {
      LinksBefore(host, events, e, k, port);
    }
  }

  lemma SourceStays(host: Host, events: seq<Event>, e: Event, port: u16, i: nat)
    requires IsSource(host, events, port, i)
    requires !Links(host, events + [e], |events|, port)
    requires e.Connect? && Redirects(host, e.call) ==> !OnRecord(host, events, e.cookie.low)
    ensures IsSource(host, events + [e], port, i)
  {
    var j: nat :| IsLastLink(host, events, j, port) && IsLastStore(host, events, i, events[j].cookie.low);
    LinkStays(host, events, j, port);
    LinkedAfter(host, events, e, port);
    LastLinkStays(host, events, e, j, port);
    assert IsLastStore(host, events + [e], i, events[j].cookie.low);
  }

  /** A redirected socket that a full table left off the record, established at a port that was
      linked before, is taken to where the former holder's key leads. */
  lemma RefusedConnectIsMisdirected(host: Host, events: seq<Event>, port: u16, i: nat, c: Cookie, call: Call)
    requires IsSource(host, events, port, i)
    requires Redirects(host, call) && !OnRecord(host, events, c.low) && |Keys(host, events)| >= MAX_CONNECTIONS
    ensures var reused := events + [Connect(c, call)] + [SockOp(c, AF_INET, ACTIVE_ESTABLISHED, port)];
            Answer(Run(host, reused).tables, port) == Some(Wanted(events[i].call))
  {
    var connect, sockOp := Connect(c, call), SockOp(c, AF_INET, ACTIVE_ESTABLISHED, port);
    var connected := events + [connect];
    LinksNow(host, events, connect, port);
    SourceStays(host, events, connect, port, i);
    OnRecordAfter(host, events, connect, c.low);
    LinksNow(host, connected, sockOp, port);
    SourceStays(host, connected, sockOp, port, i);
    AnswerExactly(host, connected + [sockOp], port, Wanted(events[i].call));
  }
}
