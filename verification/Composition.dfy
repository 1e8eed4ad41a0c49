/** Redirection and relay put together. */
module Composition {
  import opened Words
  import opened Mirrors
  import opened Redirection
  import Preamble
  import Relay
  import RelayTheorems

  /** A redirected connection, carried by two gateways, is a direct connection to the endpoint the
      application asked for. Whatever else went on at the hooks, the near gateway's query finds
      that endpoint; and along every relay run whose preamble was read whole and whose
      acknowledgement read took one byte, the two ends observe a run of a direct connection to it. */
  lemma RedirectedConnectionIsDirect(host: Host, events: seq<Event>, cookies: set<Cookie>, c: Cookie,
                                     own: Endpoint, actions: seq<Relay.Action>)
    requires GoodRun(host, events, cookies) && |RedirectedSockets(Run(host, events))| <= MAX_CONNECTIONS
    requires c in Run(host, events).conns && HoldsSome(Run(host, events).conns[c])
    requires var found := Answer(Run(host, events).tables, Run(host, events).conns[c].port.value);
             found.Some? ==>
               && RelayTheorems.Legal(Relay.Init(found.value, own), actions)
               && RelayTheorems.Clean(RelayTheorems.Exec(Relay.Init(found.value, own), actions))
    ensures var conn := Run(host, events).conns[c];
            var found := Answer(Run(host, events).tables, conn.port.value);
            && found == Some(Wanted(conn.call))
            && var trace := RelayTheorems.Observed(Relay.Init(found.value, own), actions);
               && trace[0] == RelayTheorems.Direct(None, [], [], [], [])
               && RelayTheorems.DirectRun(Wanted(conn.call), trace)
  {
    CapacityInvariant(host, events, cookies);
    QueryReturnsWanted(host, events, cookies, c);
    RelayTheorems.RelayRefinesDirect(Wanted(Run(host, events).conns[c].call), own, actions);
  }

  predicate HoldsSome(conn: Conn) {
    conn.redirected && conn.live && conn.port.Some?
  }

  // ---------------------------------------------------------------- many connections at once

  /** What happens in a pod and around it: an event at the hooks; a gateway accepts the connection of a
      socket and asks for its destination (`own` is the internal address of the gateway at the other
      end); or a step of one of the relays. */
  datatype JointEvent =
    | Hook(event: Event)
    | Accept(cookie: Cookie, own: Endpoint)
    | Act(cookie: Cookie, action: Relay.Action)

  /** The hooks' world, and a relay for each accepted connection. */
  datatype Joint = Joint(world: World, relays: map<Cookie, Relay.State>)

  /** An open redirected connection, not accepted before, for which the hooks have an answer. */
  predicate CanAccept(j: Joint, c: Cookie) {
    && c in j.world.conns && HoldsSome(j.world.conns[c]) && c !in j.relays
    && Answer(j.world.tables, j.world.conns[c].port.value).Some?
  }

  predicate CanAct(j: Joint, c: Cookie, a: Relay.Action) {
    c in j.relays && Relay.Enabled(j.relays[c], a)
  }

  /** What cannot happen changes nothing. */
  function JointStep(host: Host, j: Joint, e: JointEvent): Joint {
    match e
    case Hook(event) => j.(world := Step(host, j.world, event))
    case Accept(c, own) =>
      if CanAccept(j, c) then
        var found := Answer(j.world.tables, j.world.conns[c].port.value).value;
        j.(relays := j.relays[c := Relay.Init(found, own)])
      else j
    case Act(c, a) =>
      if CanAct(j, c, a) then j.(relays := j.relays[c := Relay.Step(j.relays[c], a)]) else j
  }

  function JointRun(host: Host, run: seq<JointEvent>): Joint {
    if run == [] then Joint(EMPTY, map[])
    else JointStep(host, JointRun(host, run[..|run| - 1]), run[|run| - 1])
  }

  function HookEvents(run: seq<JointEvent>): seq<Event> {
    if run == [] then []
    else HookEvents(run[..|run| - 1]) + match run[|run| - 1] case Hook(event) => [event] case _ => []
  }

  /** The steps of the relay of one connection. */
  function ActionsOf(host: Host, run: seq<JointEvent>, c: Cookie): seq<Relay.Action> {
    if run == [] then []
    else
      var before := run[..|run| - 1];
      ActionsOf(host, before, c) +
      match run[|run| - 1]
      case Act(c', a) => if c' == c && CanAct(JointRun(host, before), c, a) then [a] else []
      case _ => []
  }

  lemma {:induction false} WorldIsRun(host: Host, run: seq<JointEvent>)
    ensures JointRun(host, run).world == Run(host, HookEvents(run))
  {
    if run == [] {
    } else {
      var before, e := run[..|run| - 1], run[|run| - 1];
      WorldIsRun(host, before);
      if e.Hook? {
        assert HookEvents(run)[..|HookEvents(run)| - 1] == HookEvents(before);
      } else {
        assert HookEvents(run) == HookEvents(before);
      }
    }
  }

  /** Runs of the hooks as the theorems take them, with room for every redirected socket. */
  ghost predicate FitRun(host: Host, events: seq<Event>, cookies: set<Cookie>) {
    GoodRun(host, events, cookies) && |RedirectedSockets(Run(host, events))| <= MAX_CONNECTIONS
  }

  lemma FitBefore(host: Host, events: seq<Event>, e: Event, cookies: set<Cookie>)
    requires FitRun(host, events + [e], cookies)
    ensures FitRun(host, events, cookies) && Enabled(Run(host, events), e)
    ensures Run(host, events + [e]) == Step(host, Run(host, events), e)
  {
    var all := events + [e];
    assert all[..|events|] == events;
    assert forall i | 0 <= i < |events| :: events[i] == all[i];
    SubsetFits(RedirectedSockets(Run(host, events)), RedirectedSockets(Run(host, all)));
  }

  lemma {:induction false} NothingWithoutAccept(host: Host, run: seq<JointEvent>, c: Cookie)
    requires c !in JointRun(host, run).relays
    ensures ActionsOf(host, run, c) == []
  {
    if run == [] {
    } else {
      NothingWithoutAccept(host, run[..|run| - 1], c);
    }
  }

  /** The relay of a connection is where its own steps have taken it, from the start with the endpoint
      that its own socket asked for. */
  ghost predicate IsOwnRelay(host: Host, run: seq<JointEvent>, c: Cookie) {
    var j := JointRun(host, run);
    && c in j.relays && c in j.world.conns
    && var start := Relay.Init(Wanted(j.world.conns[c].call), j.relays[c].own);
       && RelayTheorems.Legal(start, ActionsOf(host, run, c))
       && j.relays[c] == RelayTheorems.Exec(start, ActionsOf(host, run, c))
  }

  lemma {:induction false} RelaysAreOwn(host: Host, run: seq<JointEvent>, cookies: set<Cookie>, c: Cookie)
    requires FitRun(host, HookEvents(run), cookies) && c in JointRun(host, run).relays
    ensures IsOwnRelay(host, run, c)
  {
    var before, e := run[..|run| - 1], run[|run| - 1];
    WorldIsRun(host, before);
    match e {
      case Hook(event) =>
        FitBefore(host, HookEvents(before), event, cookies);
        RelaysAreOwn(host, before, cookies, c);
        RecordedForGood(host, JointRun(host, before).world, event, c);
        assert ActionsOf(host, run, c) == ActionsOf(host, before, c);
      case Accept(_, _) =>
        assert HookEvents(run) == HookEvents(before);
        assert ActionsOf(host, run, c) == ActionsOf(host, before, c);
        if c in JointRun(host, before).relays {
          RelaysAreOwn(host, before, cookies, c);
        } else {
          NothingWithoutAccept(host, before, c);
          CapacityInvariant(host, HookEvents(before), cookies);
          QueryReturnsWanted(host, HookEvents(before), cookies, c);
        }
      case Act(c', a) =>
        assert HookEvents(run) == HookEvents(before);
        RelaysAreOwn(host, before, cookies, c);
        if c' == c && CanAct(JointRun(host, before), c, a) {
          ActFollows(host, run, c, a);
        } else {
          assert ActionsOf(host, run, c) == ActionsOf(host, before, c);
        }
    }
  }

  lemma ActFollows(host: Host, run: seq<JointEvent>, c: Cookie, a: Relay.Action)
    requires run != [] && run[|run| - 1] == Act(c, a)
    requires IsOwnRelay(host, run[..|run| - 1], c) && CanAct(JointRun(host, run[..|run| - 1]), c, a)
    ensures IsOwnRelay(host, run, c)
  {
    var before := run[..|run| - 1];
    var j := JointRun(host, before);
    var start := Relay.Init(Wanted(j.world.conns[c].call), j.relays[c].own);
    assert [a][1..] == [];
    RelayTheorems.ExecJoins(start, ActionsOf(host, before, c), [a]);
  }

  /** Any number of sockets, redirected, established, closed and accepted in any order, their relays
      interleaved with each other and with the hooks in any way: each relay whose preamble was read whole
      and whose acknowledgement read took one byte is, to its two ends, a direct connection to the
      endpoint that its own socket asked for. */
  lemma EveryConnectionIsDirect(host: Host, run: seq<JointEvent>, cookies: set<Cookie>, c: Cookie)
    requires FitRun(host, HookEvents(run), cookies)
    requires c in JointRun(host, run).relays && RelayTheorems.Clean(JointRun(host, run).relays[c])
    ensures IsOwnRelay(host, run, c)
    ensures var j := JointRun(host, run);
            var wanted := Wanted(j.world.conns[c].call);
            var trace := RelayTheorems.Observed(Relay.Init(wanted, j.relays[c].own), ActionsOf(host, run, c));
            && trace[0] == RelayTheorems.Direct(None, [], [], [], [])
            && trace[|trace| - 1] == RelayTheorems.Abs(j.relays[c])
            && RelayTheorems.DirectRun(wanted, trace)
  {
    RelaysAreOwn(host, run, cookies, c);
    var j := JointRun(host, run);
    RelayTheorems.RelayRefinesDirect(Wanted(j.world.conns[c].call), j.relays[c].own, ActionsOf(host, run, c));
  }
}
