/** What the two-gateway relay delivers: stream accounting in every reachable state, refinement of
    a direct connection, and the absence of states from which bytes could not be delivered. */
module RelayTheorems {
  import opened Words
  import opened Preamble
  import opened Relay
  import opened Traces

  // ---------------------------------------------------------------- runs

  predicate Legal(s: State, actions: seq<Action>)
    decreases |actions|
  {
    actions == [] || (Enabled(s, actions[0]) && Legal(Step(s, actions[0]), actions[1..]))
  }

  function Exec(s: State, actions: seq<Action>): State
    requires Legal(s, actions)
    decreases |actions|
  {
    if actions == [] then s else Exec(Step(s, actions[0]), actions[1..])
  }

  lemma {:induction false} ExecKeepsInv(s: State, actions: seq<Action>)
    requires Inv(s) && Legal(s, actions)
    ensures Inv(Exec(s, actions))
    decreases |actions|
  {
    if actions != [] {
      StepKeepsInv(s, actions[0]);
      ExecKeepsInv(Step(s, actions[0]), actions[1..]);
    }
  }

  lemma Reachable(wanted: Endpoint, own: Endpoint, actions: seq<Action>)
    requires Legal(Init(wanted, own), actions)
    ensures Inv(Exec(Init(wanted, own), actions))
  {
    InitInv(wanted, own);
    ExecKeepsInv(Init(wanted, own), actions);
  }

  lemma {:induction false} EndpointsStay(s: State, actions: seq<Action>)
    requires Legal(s, actions)
    ensures Exec(s, actions).wanted == s.wanted && Exec(s, actions).own == s.own
    decreases |actions|
  {
    if actions != [] {
      EndpointsStay(Step(s, actions[0]), actions[1..]);
    }
  }

  lemma {:induction false} ExecJoins(s: State, actions: seq<Action>, more: seq<Action>)
    requires Legal(s, actions) && Legal(Exec(s, actions), more)
    ensures Legal(s, actions + more) && Exec(s, actions + more) == Exec(Exec(s, actions), more)
    decreases |actions|
  {
    if actions == [] {
      assert actions + more == more;
    } else {
      ExecJoins(Step(s, actions[0]), actions[1..], more);
      assert (actions + more)[1..] == actions[1..] + more;
    }
  }

  // ---------------------------------------------------------------- what reaches each end

  /** In every reachable state, however reads were cut: the preamble read took the first bytes of
      the preamble and nothing else; the server's bytes are the rest of the preamble, if any, and
      then the client's, in order; the client's are the server's less what the acknowledgement
      read took after the 'Y'. Everything not yet arrived is still in the pipe. */
  lemma StreamsAreAccountedFor(wanted: Endpoint, own: Endpoint, actions: seq<Action>)
    requires Legal(Init(wanted, own), actions)
    ensures var s := Exec(Init(wanted, own), actions);
            && s.preambleRead <= |Print(wanted)|
            && (s.far.FarAsked? ==> s.far.remote == Print(wanted)[..s.preambleRead])
            && (!s.near.NearConnected? ==> Total(s.up) == Print(wanted)[s.preambleRead..] + s.clientSent)
            && (s.dialled.None? ==> s.up.arrived == [] && s.down.arrived == [])
            && (Started(s) && s.dialled.Some? ==>
                  1 <= s.ackRead <= 1 + |s.serverSent| && Total(s.down) == s.serverSent[s.ackRead - 1..])
  {
    Reachable(wanted, own, actions);
    EndpointsStay(Init(wanted, own), actions);
    var s := Exec(Init(wanted, own), actions);
    if !s.near.NearConnected? {
      assert UpStream(s)[s.preambleRead..] == Print(wanted)[s.preambleRead..] + s.clientSent;
    }
    if s.dialled.None? {
      NothingWithoutDial(s);
    }
    if Started(s) && s.dialled.Some? {
      assert ([ACK] + s.serverSent)[s.ackRead..] == s.serverSent[s.ackRead - 1..];
    }
  }

  /** A failed or refused dial leaves both ends without a byte. */
  lemma NothingWithoutDial(s: State)
    requires Inv(s) && s.dialled.None?
    ensures s.down.arrived == []
    ensures s.up.arrived == []
  {
    assert |DownStream(s)| == 0;
    assert |Total(s.down)| == 0;
  }

  /** The server gets the client's stream exactly when the preamble was read whole; and then, or
      when all that is missing is the digit of port 0, the server is the wanted one. */
  lemma WholePreambleExactly(wanted: Endpoint, own: Endpoint, actions: seq<Action>)
    requires Legal(Init(wanted, own), actions) && Exec(Init(wanted, own), actions).dialled.Some?
    ensures var s := Exec(Init(wanted, own), actions);
            && (Total(s.up) == s.clientSent <==> s.preambleRead == |Print(wanted)|)
            && (s.dialled == Some(wanted) <==>
                  s.preambleRead == |Print(wanted)| || (wanted.port == 0 && s.preambleRead == |Print(wanted)| - 1))
  {
    Reachable(wanted, own, actions);
    StreamsAreAccountedFor(wanted, own, actions);
    EndpointsStay(Init(wanted, own), actions);
    var s := Exec(Init(wanted, own), actions);
    PartialPreamble(wanted, s.preambleRead);
    assert |Total(s.up)| == |Print(wanted)| - s.preambleRead + |s.clientSent|;
    if s.preambleRead == |Print(wanted)| {
      assert Print(wanted)[s.preambleRead..] + s.clientSent == s.clientSent;
    }
  }

  /** The client gets the server's stream exactly when the acknowledgement read took one byte. */
  lemma OneByteAckExactly(wanted: Endpoint, own: Endpoint, actions: seq<Action>)
    requires Legal(Init(wanted, own), actions)
    requires Started(Exec(Init(wanted, own), actions)) && Exec(Init(wanted, own), actions).dialled.Some?
    ensures var s := Exec(Init(wanted, own), actions);
            Total(s.down) == s.serverSent <==> s.ackRead == 1
  {
    StreamsAreAccountedFor(wanted, own, actions);
    var s := Exec(Init(wanted, own), actions);
    assert |Total(s.down)| == |s.serverSent| - (s.ackRead - 1);
  }

  // ---------------------------------------------------------------- refinement

  /** A direct connection: what each end has sent, and how much of it the other has received. */
  datatype Direct = Direct(
    server: Option<Endpoint>, clientSent: seq<byte>, serverGot: seq<byte>,
    serverSent: seq<byte>, clientGot: seq<byte>)

  /** A TCP connection to `target`: it opens, an end sends, or an end receives the next bytes. */
  predicate DirectNext(target: Endpoint, d: Direct, d': Direct) {
    || d' == d
    || (d.server.None? && d' == d.(server := Some(target)))
    || (d.clientSent <= d'.clientSent && d' == d.(clientSent := d'.clientSent))
    || (d.server.Some? && d.serverSent <= d'.serverSent && d' == d.(serverSent := d'.serverSent))
    || (d.server.Some? && d.serverGot <= d'.serverGot <= d.clientSent && d' == d.(serverGot := d'.serverGot))
    || (d.server.Some? && d.clientGot <= d'.clientGot <= d.serverSent && d' == d.(clientGot := d'.clientGot))
  }

  function Abs(s: State): Direct {
    Direct(s.dialled, s.clientSent, s.up.arrived, s.serverSent, s.down.arrived)
  }

  /** The runs in question: the preamble was read whole and the acknowledgement alone. */
  predicate Clean(s: State) {
    && (!s.far.FarAccepted? ==> s.preambleRead == |Print(s.wanted)|)
    && (Started(s) && s.dialled.Some? ==> s.ackRead == 1)
  }

  /** What has arrived is a prefix of what was sent. */
  lemma CleanPrefixes(s: State)
    requires Inv(s) && Clean(s)
    ensures s.up.arrived <= s.clientSent
    ensures s.down.arrived <= s.serverSent
    ensures s.dialled.Some? ==> s.dialled == Some(s.wanted)
  {
    if s.dialled.None? {
      NothingWithoutDial(s);
    } else {
      ParsePrint(s.wanted);
      assert Print(s.wanted)[..s.preambleRead] == Print(s.wanted);
      assert UpStream(s)[s.preambleRead..] == s.clientSent;
      assert s.up.arrived <= Total(s.up);
      if Started(s) {
        assert DownStream(s)[1..] == s.serverSent;
        assert s.down.arrived <= Total(s.down);
      }
    }
  }

  lemma StepRefines(s: State, a: Action)
    requires Inv(s) && Enabled(s, a) && Clean(Step(s, a))
    ensures DirectNext(s.wanted, Abs(s), Abs(Step(s, a)))
  {
    if a.Up? {
      StepKeepsInv(s, a);
      CleanPrefixes(Step(s, a));
      UpArrives(s, a.hop, a.n);
    } else if a.Down? {
      StepKeepsInv(s, a);
      CleanPrefixes(Step(s, a));
      DownArrives(s, a.hop, a.n);
    } else if a.FarDial? {
      StepKeepsInv(s, a);
      CleanPrefixes(Step(s, a));
    } else {
      HandshakeIsSilent(s, a);
    }
  }

  lemma HandshakeIsSilent(s: State, a: Action)
    requires Enabled(s, a) && !a.Up? && !a.Down? && !a.FarDial?
    ensures DirectNext(s.wanted, Abs(s), Abs(Step(s, a)))
  {
  }

  lemma UpArrives(s: State, hop: Hop, n: nat)
    requires Inv(s) && Enabled(s, Up(hop, n))
    requires Step(s, Up(hop, n)).up.arrived <= s.clientSent
    ensures DirectNext(s.wanted, Abs(s), Abs(Step(s, Up(hop, n))))
  {
    assert s.up.arrived <= Move(s.up, hop, n).arrived;
  }

  lemma DownArrives(s: State, hop: Hop, n: nat)
    requires Inv(s) && Enabled(s, Down(hop, n))
    requires Step(s, Down(hop, n)).down.arrived <= s.serverSent
    ensures DirectNext(s.wanted, Abs(s), Abs(Step(s, Down(hop, n))))
  {
    assert s.down.arrived <= Move(s.down, hop, n).arrived;
    if hop.Deliver? {
      DeliveredOnlyAfterDial(s);
    }
  }

  lemma DeliveredOnlyAfterDial(s: State)
    requires Inv(s) && s.down.lastLeg != []
    ensures s.dialled.Some?
  {
    assert |Total(s.down)| >= |s.down.lastLeg|;
    assert s.dialled.None? ==> |DownStream(s)| == 0;
  }

  /** What a direct connection to `target` may do next. */
  function Directly(target: Endpoint): (Direct, Direct) -> bool {
    (d, d') => DirectNext(target, d, d')
  }

  /** A run of a direct connection to `target`. */
  ghost predicate DirectRun(target: Endpoint, trace: seq<Direct>) {
    IsTrace(Directly(target), trace)
  }

  /** What the two ends see along a run. */
  function Observed(s: State, actions: seq<Action>): (trace: seq<Direct>)
    requires Legal(s, actions)
    ensures |trace| == |actions| + 1 && trace[0] == Abs(s) && trace[|actions|] == Abs(Exec(s, actions))
    decreases |actions|
  {
    if actions == [] then [Abs(s)] else [Abs(s)] + Observed(Step(s, actions[0]), actions[1..])
  }

  lemma CleanStep(s: State, a: Action)
    requires Inv(s) && Enabled(s, a) && Clean(Step(s, a))
    ensures Clean(s) && Step(s, a).wanted == s.wanted && Inv(Step(s, a))
    ensures Directly(s.wanted)(Abs(s), Abs(Step(s, a)))
  {
    StepKeepsInv(s, a);
    StepRefines(s, a);
    WasClean(s, a);
  }

  lemma WasClean(s: State, a: Action)
    requires Enabled(s, a) && Clean(Step(s, a))
    ensures Clean(s) && Step(s, a).wanted == s.wanted
  {
  }

  lemma {:induction false} ObservedIsDirect(s: State, actions: seq<Action>)
    requires Inv(s) && Legal(s, actions) && Clean(Exec(s, actions))
    ensures Clean(s) && DirectRun(s.wanted, Observed(s, actions))
    decreases |actions|
  {
    if actions == [] {
    } else {
      var s', rest := Step(s, actions[0]), actions[1..];
      CleanEnd(s, actions);
      ObservedIsDirect(s', rest);
      CleanStep(s, actions[0]);
      Prepend(Directly(s.wanted), Abs(s), Observed(s', rest));
    }
  }

  lemma CleanEnd(s: State, actions: seq<Action>)
    requires Inv(s) && Legal(s, actions) && Clean(Exec(s, actions)) && actions != []
    ensures var s' := Step(s, actions[0]);
            Inv(s') && Legal(s', actions[1..]) && Clean(Exec(s', actions[1..]))
  {
    StepKeepsInv(s, actions[0]);
  }

  /** Seen from its two ends, a run through two gateways is, step for step, a run of a direct
      connection to the wanted endpoint. */
  lemma RelayRefinesDirect(wanted: Endpoint, own: Endpoint, actions: seq<Action>)
    requires Legal(Init(wanted, own), actions) && Clean(Exec(Init(wanted, own), actions))
    ensures var trace := Observed(Init(wanted, own), actions);
            && trace[0] == Direct(None, [], [], [], []) && DirectRun(wanted, trace)
            && trace[|actions|] == Abs(Exec(Init(wanted, own), actions))
  {
    InitInv(wanted, own);
    ObservedIsDirect(Init(wanted, own), actions);
  }
}
