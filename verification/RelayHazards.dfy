/** Runs of the relay that go wrong: a preamble read short, an acknowledgement read long, and ends of
    streams that nobody passes on. */
module RelayHazards {
  import opened Words
  import opened Preamble
  import opened Relay
  import opened RelayTheorems

  // ---------------------------------------------------------------- a preamble read short

  function ShortRead(wanted: Endpoint): seq<Action> {
    [NearAsk, FarRead(|Print(wanted)| - 1), FarDial(true)]
  }

  lemma LastDigitMissing(wanted: Endpoint)
    requires wanted.port >= 10
    ensures Print(wanted)[..|Print(wanted)| - 1] == Print(wanted.(port := wanted.port / 10))
    ensures Print(wanted)[|Print(wanted)| - 1..] == [ZERO + wanted.port % 10]
  {
    var rest := PrintHost(wanted) + [COLON];
    assert Print(wanted) == rest + Decimal(wanted.port / 10) + [ZERO + wanted.port % 10];
    assert PrintHost(wanted.(port := wanted.port / 10)) == PrintHost(wanted);
  }

  /** A first read of n bytes that name another endpoint than the gateway's own. */
  lemma ReadsAndDials(wanted: Endpoint, own: Endpoint, n: nat, named: Endpoint)
    requires 0 < n <= |Print(wanted)| && n <= TMP_SIZE && Print(wanted)[..n] == Print(named) && named != own
    ensures var actions := [NearAsk, FarRead(n), FarDial(true)];
            && Legal(Init(wanted, own), actions)
            && Exec(Init(wanted, own), actions) ==
               Init(wanted, own).(near := NearAsked, far := FarDialled, dialled := Some(named), preambleRead := n,
                                  up := NOTHING.(middleLeg := Print(wanted)[n..]))
  {
    ParsePrint(named);
    PrintIsInjective(named, own);
    var asked := Step(Init(wanted, own), NearAsk);
    assert asked.up == NOTHING.(middleLeg := Print(wanted));
    ThreeActions(Init(wanted, own), NearAsk, FarRead(n), FarDial(true));
  }

  /** A read that stops before the last digit of the port: the far gateway dials the port with that
      digit missing, and the digit will be the first byte that its server receives. */
  lemma ShortReadMisdials(wanted: Endpoint, own: Endpoint)
    requires wanted.port >= 10 && own != wanted.(port := wanted.port / 10)
    ensures Legal(Init(wanted, own), ShortRead(wanted))
    ensures var s := Exec(Init(wanted, own), ShortRead(wanted));
            && s.dialled == Some(wanted.(port := wanted.port / 10))
            && Total(s.up) == [ZERO + wanted.port % 10] + s.clientSent
  {
    LastDigitMissing(wanted);
    PrintFits(wanted);
    ReadsAndDials(wanted, own, |Print(wanted)| - 1, wanted.(port := wanted.port / 10));
    StreamsAreAccountedFor(wanted, own, ShortRead(wanted));
  }

  lemma TwoActions(s: State, a: Action, b: Action)
    requires Enabled(s, a) && Enabled(Step(s, a), b)
    ensures Legal(s, [a, b]) && Exec(s, [a, b]) == Step(Step(s, a), b)
  {
    var all := [a, b];
    assert [b][1..] == [];
    assert Legal(Step(s, a), [b]) && Exec(Step(s, a), [b]) == Step(Step(s, a), b);
    assert all[0] == a && all[1..] == [b];
  }

  lemma ThreeActions(s: State, a: Action, b: Action, c: Action)
    requires Enabled(s, a) && Enabled(Step(s, a), b) && Enabled(Step(Step(s, a), b), c)
    ensures Legal(s, [a, b, c]) && Exec(s, [a, b, c]) == Step(Step(Step(s, a), b), c)
  {
    var all := [a, b, c];
    TwoActions(Step(s, a), b, c);
    assert all[0] == a && all[1..] == [b, c];
    assert Legal(s, all) && Exec(s, all) == Exec(Step(s, a), [b, c]);
  }

  /** For instance 1.1.1.1:80, and port 8. */
  lemma ShortReadExample(own: Endpoint)
    requires own != Endpoint(1, 1, 1, 1, 8)
    ensures var wanted := Endpoint(1, 1, 1, 1, 80);
            && Legal(Init(wanted, own), ShortRead(wanted))
            && Exec(Init(wanted, own), ShortRead(wanted)).dialled == Some(Endpoint(1, 1, 1, 1, 8))
  {
    ShortReadMisdials(Endpoint(1, 1, 1, 1, 80), own);
  }

  // ---------------------------------------------------------------- an acknowledgement read long

  function Handshake(wanted: Endpoint): seq<Action> {
    [NearAsk, FarRead(|Print(wanted)|), FarDial(true)]
  }

  lemma HandshakeRuns(wanted: Endpoint, own: Endpoint)
    requires wanted != own
    ensures Legal(Init(wanted, own), Handshake(wanted))
    ensures var s := Exec(Init(wanted, own), Handshake(wanted));
            s == Init(wanted, own).(near := NearAsked, far := FarDialled, dialled := Some(wanted),
                                    preambleRead := |Print(wanted)|)
  {
    PrintFits(wanted);
    assert Print(wanted)[..|Print(wanted)|] == Print(wanted);
    ReadsAndDials(wanted, own, |Print(wanted)|, wanted);
  }

  /** The server speaks first, and the near gateway finds its words behind the 'Y'. */
  function Greeting(words: seq<byte>): seq<Action> {
    [FarAck, ServerSend(words), Down(ReadFirst, |words|)] + [Down(WriteFirst, |words|), NearAck(1 + |words|)]
  }

  lemma GreetingIsSent(s: State, words: seq<byte>)
    requires 0 < |words| < TMP_SIZE
    requires s.near.NearAsked? && s.far.FarDialled? && s.dialled.Some? && s.down == NOTHING
    ensures var actions := [FarAck, ServerSend(words), Down(ReadFirst, |words|)];
            && Legal(s, actions)
            && Exec(s, actions) == s.(far := FarPumping, serverSent := s.serverSent + words,
                                      down := Pipe([], [], [], [ACK], words, []))
  {
    var sent := Step(Step(s, FarAck), ServerSend(words));
    assert sent.down == Pipe([], [], [], [ACK], [], words);
    ThreeActions(s, FarAck, ServerSend(words), Down(ReadFirst, |words|));
  }

  lemma GreetingIsSwallowed(s: State, words: seq<byte>)
    requires 0 < |words| < TMP_SIZE
    requires s.near.NearAsked? && s.far.FarPumping? && s.down == Pipe([], [], [], [ACK], words, [])
    ensures var actions := [Down(WriteFirst, |words|), NearAck(1 + |words|)];
            && Legal(s, actions)
            && Exec(s, actions) == s.(near := NearPumping, ackRead := 1 + |words|, down := NOTHING)
  {
    var written := Step(s, Down(WriteFirst, |words|));
    assert written.down == Pipe([], [], [], [ACK] + words, [], []);
    TwoActions(s, Down(WriteFirst, |words|), NearAck(1 + |words|));
  }

  /** A greeting of up to 255 bytes can be lost whole: nothing of it has arrived, and nothing is
      left on its way. */
  lemma GreetingIsLost(wanted: Endpoint, own: Endpoint, words: seq<byte>)
    requires wanted != own && 0 < |words| < 256
    ensures var actions := Handshake(wanted) + Greeting(words);
            && Legal(Init(wanted, own), actions)
            && var s := Exec(Init(wanted, own), actions);
               s.dialled == Some(wanted) && s.serverSent == words && Total(s.down) == []
  {
    HandshakeRuns(wanted, own);
    var s := Exec(Init(wanted, own), Handshake(wanted));
    GreetingIsSent(s, words);
    var sending := [FarAck, ServerSend(words), Down(ReadFirst, |words|)];
    GreetingIsSwallowed(Exec(s, sending), words);
    ExecJoins(s, sending, [Down(WriteFirst, |words|), NearAck(1 + |words|)]);
    ExecJoins(Init(wanted, own), Handshake(wanted), Greeting(words));
    assert [] + words == words;
  }

  // ---------------------------------------------------------------- ends of streams

  /** A gateway gives up its connections when the copying in its main goroutine ends: on the near
      side the one from the far gateway to the client, on the far side the one from the near gateway
      to the server. Without errors copying ends when its source has ended and all it sent has been
      written. The ends of the client's and the server's streams only end the other goroutines. */
  predicate StopsAtEnd(s: State, a: Action) {
    match a
    case NearStop => s.far.FarDone? && s.down.middleLeg == [] && s.down.secondBuffer == []
    case FarStop => s.near.NearDone? && s.up.middleLeg == [] && s.up.secondBuffer == []
    case _ => true
  }

  predicate WithoutErrors(s: State, actions: seq<Action>)
    requires Legal(s, actions)
    decreases |actions|
  {
    actions == [] || (StopsAtEnd(s, actions[0]) && WithoutErrors(Step(s, actions[0]), actions[1..]))
  }

  /** The near gateway stops after the far one; and the far one stops before it only for want of a
      server. */
  predicate NoOneStarts(s: State) {
    && (s.near.NearDone? ==> s.far.FarDone?)
    && (s.far.FarDone? ==> s.dialled.None?)
  }

  lemma {:induction false} NoOneStopsFirst(s: State, actions: seq<Action>)
    requires Inv(s) && NoOneStarts(s) && Legal(s, actions) && WithoutErrors(s, actions)
    ensures NoOneStarts(Exec(s, actions))
    decreases |actions|
  {
    if actions == [] {
    } else {
      StepKeepsInv(s, actions[0]);
      NoOneStopsFirst(Step(s, actions[0]), actions[1..]);
    }
  }

  /** Without errors the far gateway closes its connections exactly when its dial was refused or
      failed, and the near one only after that: once there is a server, neither end ever sees the
      other's stream end, whatever the ends do. */
  lemma EndsAreNeverPassedOn(wanted: Endpoint, own: Endpoint, actions: seq<Action>)
    requires Legal(Init(wanted, own), actions) && WithoutErrors(Init(wanted, own), actions)
    ensures var s := Exec(Init(wanted, own), actions);
            && (s.far.FarDone? <==> s.dialled.None? && !s.far.FarAccepted? && !s.far.FarAsked?)
            && (s.near.NearDone? ==> s.far.FarDone?)
  {
    Reachable(wanted, own, actions);
    InitInv(wanted, own);
    NoOneStopsFirst(Init(wanted, own), actions);
  }
}
