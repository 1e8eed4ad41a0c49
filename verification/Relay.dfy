/** One connection carried by two gateways: internalProxy on the near side, handleExternalConnection
    on the far side, and the two io.Copy loops each of them ends in.

    Every socket is a byte stream read in pieces of any size; every step of either gateway, of the
    client and of the server may come next. */
module Relay {
  import opened Words
  import opened Preamble

  const ACK: byte := 89 // 'Y'
  const TMP_SIZE := 256
  const COPY_BUFFER := 32768

  /** One direction. Bytes go from the source along `firstLeg` into the first gateway's copy buffer,
      along `middleLeg` into the second one's, and along `lastLeg` to the destination. */
  datatype Pipe = Pipe(
    arrived: seq<byte>, lastLeg: seq<byte>, secondBuffer: seq<byte>,
    middleLeg: seq<byte>, firstBuffer: seq<byte>, firstLeg: seq<byte>)

  datatype Hop = ReadFirst | WriteFirst | ReadSecond | WriteSecond | Deliver

  datatype Near = NearConnected | NearAsked | NearPumping | NearDone
  datatype Far = FarAccepted | FarAsked(remote: seq<byte>) | FarDialled | FarPumping | FarDone

  /** `wanted` is the original destination, `own` the far gateway's internal listener. `up` flows
      from client to server, `down` back. `preambleRead` and `ackRead` count what the two single
      reads before the pumps took. */
  datatype State = State(
    wanted: Endpoint, own: Endpoint, near: Near, far: Far,
    up: Pipe, down: Pipe, clientSent: seq<byte>, serverSent: seq<byte>,
    preambleRead: nat, ackRead: nat, dialled: Option<Endpoint>)

  datatype Action =
    | ClientSend(bytes: seq<byte>)
    | ServerSend(bytes: seq<byte>)
    | Up(hop: Hop, n: nat)
    | Down(hop: Hop, n: nat)
    | NearAsk
    | NearAck(n: nat)
    | NearStop
    | FarRead(n: nat)
    | FarDial(ok: bool)
    | FarAck
    | FarStop

  // ---------------------------------------------------------------- pipes

  const NOTHING := Pipe([], [], [], [], [], [])

  function Source(p: Pipe, hop: Hop): seq<byte> {
    match hop
    case ReadFirst => p.firstLeg
    case WriteFirst => p.firstBuffer
    case ReadSecond => p.middleLeg
    case WriteSecond => p.secondBuffer
    case Deliver => p.lastLeg
  }

  /** io.Copy reads when it has written all it read before, at most a buffer at a time. */
  predicate CanMove(p: Pipe, hop: Hop, n: nat) {
    && 1 <= n <= |Source(p, hop)|
    && (hop.ReadFirst? ==> p.firstBuffer == [] && n <= COPY_BUFFER)
    && (hop.ReadSecond? ==> p.secondBuffer == [] && n <= COPY_BUFFER)
  }

  function Move(p: Pipe, hop: Hop, n: nat): Pipe
    requires n <= |Source(p, hop)|
  {
    match hop
    case ReadFirst => p.(firstBuffer := p.firstBuffer + p.firstLeg[..n], firstLeg := p.firstLeg[n..])
    case WriteFirst => p.(middleLeg := p.middleLeg + p.firstBuffer[..n], firstBuffer := p.firstBuffer[n..])
    case ReadSecond => p.(secondBuffer := p.secondBuffer + p.middleLeg[..n], middleLeg := p.middleLeg[n..])
    case WriteSecond => p.(lastLeg := p.lastLeg + p.secondBuffer[..n], secondBuffer := p.secondBuffer[n..])
    case Deliver => p.(arrived := p.arrived + p.lastLeg[..n], lastLeg := p.lastLeg[n..])
  }

  /** Everything in the pipe, oldest byte first. */
  function Total(p: Pipe): seq<byte> {
    p.arrived + (p.lastLeg + (p.secondBuffer + (p.middleLeg + (p.firstBuffer + p.firstLeg))))
  }

  lemma Regroup(x: seq<byte>, y: seq<byte>, n: nat, z: seq<byte>)
    requires n <= |y|
    ensures (x + y[..n]) + (y[n..] + z) == x + (y + z)
  {
  }

  lemma MoveKeepsTotal(p: Pipe, hop: Hop, n: nat)
    requires n <= |Source(p, hop)|
    ensures Total(Move(p, hop, n)) == Total(p)
  {
    match hop
    case ReadFirst =>
      assert (p.firstBuffer + p.firstLeg[..n]) + p.firstLeg[n..] == p.firstBuffer + p.firstLeg;
    case WriteFirst => Regroup(p.middleLeg, p.firstBuffer, n, p.firstLeg);
    case ReadSecond => Regroup(p.secondBuffer, p.middleLeg, n, p.firstBuffer + p.firstLeg);
    case WriteSecond => Regroup(p.lastLeg, p.secondBuffer, n, p.middleLeg + (p.firstBuffer + p.firstLeg));
    case Deliver => Regroup(p.arrived, p.lastLeg, n, p.secondBuffer + (p.middleLeg + (p.firstBuffer + p.firstLeg)));
  }

  // ---------------------------------------------------------------- steps

  function Init(wanted: Endpoint, own: Endpoint): State {
    State(wanted, own, NearConnected, FarAccepted, NOTHING, NOTHING, [], [], 0, 0, None)
  }

  predicate Started(s: State) {
    s.near.NearPumping? || s.near.NearDone?
  }

  predicate Enabled(s: State, a: Action) {
    match a
    case ClientSend(_) => true
    case ServerSend(_) => s.dialled.Some?
    case Up(hop, n) =>
      && CanMove(s.up, hop, n)
      && (hop.ReadFirst? || hop.WriteFirst? ==> s.near.NearPumping?)
      && (hop.ReadSecond? || hop.WriteSecond? ==> s.far.FarPumping?)
    case Down(hop, n) =>
      && CanMove(s.down, hop, n)
      && (hop.ReadFirst? || hop.WriteFirst? ==> s.far.FarPumping?)
      && (hop.ReadSecond? || hop.WriteSecond? ==> s.near.NearPumping?)
    case NearAsk => s.near.NearConnected?
    // the result of the read is ignored: it also returns, empty, when the far side has hung up
    case NearAck(n) =>
      && s.near.NearAsked?
      && n <= |s.down.middleLeg| && n <= TMP_SIZE
      && (n == 0 ==> s.far.FarDone? && s.down.middleLeg == [])
    case NearStop => s.near.NearPumping?
    case FarRead(n) =>
      && s.far.FarAccepted?
      && n <= |s.up.middleLeg| && n <= TMP_SIZE
      && (n == 0 ==> s.near.NearDone? && s.up.middleLeg == [])
    case FarDial(ok) =>
      && s.far.FarAsked?
      && (ok ==> s.far.remote != Print(s.own) && Parse(s.far.remote).Some?)
    case FarAck => s.far.FarDialled?
    case FarStop => s.far.FarPumping?
  }

  function Step(s: State, a: Action): State
    requires Enabled(s, a)
  {
    match a
    case ClientSend(bytes) =>
      s.(clientSent := s.clientSent + bytes, up := s.up.(firstLeg := s.up.firstLeg + bytes))
    case ServerSend(bytes) =>
      s.(serverSent := s.serverSent + bytes, down := s.down.(firstLeg := s.down.firstLeg + bytes))
    case Up(hop, n) => s.(up := Move(s.up, hop, n))
    case Down(hop, n) => s.(down := Move(s.down, hop, n))
    case NearAsk =>
      s.(near := NearAsked, up := s.up.(middleLeg := s.up.middleLeg + Print(s.wanted)))
    case NearAck(n) =>
      s.(near := NearPumping, ackRead := n, down := s.down.(middleLeg := s.down.middleLeg[n..]))
    case NearStop => s.(near := NearDone)
    case FarRead(n) =>
      s.(far := FarAsked(s.up.middleLeg[..n]), preambleRead := n, up := s.up.(middleLeg := s.up.middleLeg[n..]))
    case FarDial(ok) =>
      if ok then s.(far := FarDialled, dialled := Parse(s.far.remote)) else s.(far := FarDone)
    case FarAck =>
      s.(far := FarPumping, down := s.down.(middleLeg := s.down.middleLeg + [ACK]))
    case FarStop => s.(far := FarDone)
  }

  /** The two reads before the pumps take at most 256 bytes, and can take as many; the copy loops take at most
      32768 at a time; and the far gateway's answer is one 'Y', 89. */
  lemma SizesAndBytes(s: State, n: nat)
    ensures Enabled(s, FarRead(n)) ==> n <= 256
    ensures Enabled(s, NearAck(n)) ==> n <= 256
    ensures s.far.FarAccepted? && 1 <= n <= 256 && n <= |s.up.middleLeg| ==> Enabled(s, FarRead(n))
    ensures s.near.NearAsked? && 1 <= n <= 256 && n <= |s.down.middleLeg| ==> Enabled(s, NearAck(n))
    ensures s.near.NearPumping? && s.up.firstBuffer == [] && 1 <= n <= |s.up.firstLeg| ==>
              (Enabled(s, Up(ReadFirst, n)) <==> n <= 32768)
    ensures s.far.FarDialled? ==> Step(s, FarAck).down.middleLeg == s.down.middleLeg + [89]
  {
  }

  // ---------------------------------------------------------------- the invariant

  /** What the near gateway's connection carries towards the far one. */
  function UpStream(s: State): seq<byte> {
    (if s.near.NearConnected? then [] else Print(s.wanted)) + s.clientSent
  }

  predicate Acked(s: State) {
    s.far.FarPumping? || (s.far.FarDone? && s.dialled.Some?)
  }

  /** What the far gateway's connection carries back. */
  function DownStream(s: State): seq<byte> {
    (if Acked(s) then [ACK] else []) + s.serverSent
  }

  predicate Quiet(s: State) {
    s.far.FarAccepted? || s.far.FarAsked? || s.far.FarDialled?
  }

  ghost predicate Inv(s: State) {
    && Phases(s)
    && UpInv(s)
    && DownInv(s)
  }

  predicate Phases(s: State) {
    && (Started(s) ==> !Quiet(s))
    && (s.near.NearConnected? ==> s.far.FarAccepted?)
    && (s.far.FarAccepted? ==> s.preambleRead == 0)
    && (s.far.FarAccepted? || s.far.FarAsked? ==> s.dialled == None)
    && (s.far.FarDialled? || s.far.FarPumping? ==> s.dialled.Some?)
    && (s.preambleRead <= |Print(s.wanted)|)
    && (s.far.FarAsked? ==> s.far.remote == Print(s.wanted)[..s.preambleRead])
    && (s.dialled.Some? ==>
          && Parse(Print(s.wanted)[..s.preambleRead]) == s.dialled
          && Print(s.wanted)[..s.preambleRead] != Print(s.own))
  }

  predicate UpInv(s: State) {
    && s.preambleRead <= |UpStream(s)|
    && Total(s.up) == UpStream(s)[s.preambleRead..]
    && (!Started(s) ==> s.up.firstBuffer == [] && s.up.firstLeg == s.clientSent)
    && (Quiet(s) || s.dialled.None? ==> s.up.secondBuffer == [] && s.up.lastLeg == [] && s.up.arrived == [])
  }

  predicate DownInv(s: State) {
    && s.ackRead <= |DownStream(s)|
    && Total(s.down) == DownStream(s)[s.ackRead..]
    && (s.dialled.None? ==> s.serverSent == [])
    && (!Started(s) ==> s.ackRead == 0 && s.down.secondBuffer == [] && s.down.lastLeg == [] && s.down.arrived == [])
    && (Quiet(s) ==> s.down.middleLeg == [] && s.down.firstBuffer == [])
    && (Acked(s) && !Started(s) ==> s.down.middleLeg != [])
    && (Started(s) ==> s.ackRead >= 1 || s.dialled.None?)
  }

  lemma InitInv(wanted: Endpoint, own: Endpoint)
    ensures Inv(Init(wanted, own))
  {
  }

  lemma StepKeepsInv(s: State, a: Action)
    requires Inv(s) && Enabled(s, a)
    ensures Inv(Step(s, a))
  {
    StepKeepsPhases(s, a);
    StepKeepsUp(s, a);
    StepKeepsDown(s, a);
  }

  lemma StepKeepsPhases(s: State, a: Action)
    requires Inv(s) && Enabled(s, a)
    ensures Phases(Step(s, a))
  {
    if a.FarRead? {
      PreambleIsAlone(s);
    }
  }

  /** Until the far gateway has read, the leg between the gateways carries the preamble only. */
  lemma PreambleIsAlone(s: State)
    requires Inv(s) && s.far.FarAccepted?
    ensures !s.near.NearConnected? ==> s.up.middleLeg == Print(s.wanted)
    ensures s.near.NearConnected? ==> s.up.middleLeg == []
  {
    assert Total(s.up) == s.up.middleLeg + s.clientSent;
    assert UpStream(s)[0..] == UpStream(s);
    if s.near.NearConnected? {
      assert |s.up.middleLeg| == 0;
    } else {
      assert s.up.middleLeg == Total(s.up)[..|s.up.middleLeg|];
    }
  }

  lemma TotalAppend(p: Pipe, bytes: seq<byte>)
    ensures Total(p.(firstLeg := p.firstLeg + bytes)) == Total(p) + bytes
  {
    assert p.firstBuffer + (p.firstLeg + bytes) == (p.firstBuffer + p.firstLeg) + bytes;
  }

  lemma DropAppend(x: seq<byte>, y: seq<byte>, n: nat)
    requires n <= |x|
    ensures (x + y)[n..] == x[n..] + y
  {
  }

  lemma StepKeepsUp(s: State, a: Action)
    requires Inv(s) && Enabled(s, a)
    ensures UpInv(Step(s, a))
  {
    match a
    case ClientSend(bytes) => ClientSendKeepsUp(s, bytes);
    case Up(hop, n) => MoveKeepsUp(s, hop, n);
    case NearAsk => NearAskKeepsUp(s);
    case FarRead(n) => FarReadKeepsUp(s, n);
    case ServerSend(_) =>
    case Down(_, _) =>
    case NearAck(_) =>
    case NearStop =>
    case FarDial(_) =>
    case FarAck =>
    case FarStop =>
  }

  lemma ClientSendKeepsUp(s: State, bytes: seq<byte>)
    requires Inv(s)
    ensures UpInv(Step(s, ClientSend(bytes)))
  {
    var s' := Step(s, ClientSend(bytes));
    TotalAppend(s.up, bytes);
    var preamble := if s.near.NearConnected? then [] else Print(s.wanted);
    assert UpStream(s') == UpStream(s) + bytes;
    DropAppend(UpStream(s), bytes, s.preambleRead);
  }

  lemma MoveKeepsUp(s: State, hop: Hop, n: nat)
    requires Inv(s) && Enabled(s, Up(hop, n))
    ensures UpInv(Step(s, Up(hop, n)))
  {
    MoveKeepsTotal(s.up, hop, n);
  }

  lemma NearAskKeepsUp(s: State)
    requires Inv(s) && Enabled(s, NearAsk)
    ensures UpInv(Step(s, NearAsk))
  {
    PreambleIsAlone(s);
    assert s.up == Pipe([], [], [], [], [], s.clientSent);
    assert Total(Step(s, NearAsk).up) == Print(s.wanted) + s.clientSent;
  }

  lemma FarReadKeepsUp(s: State, n: nat)
    requires Inv(s) && Enabled(s, FarRead(n))
    ensures UpInv(Step(s, FarRead(n)))
  {
    PreambleIsAlone(s);
    assert s.up == Pipe([], [], [], s.up.middleLeg, [], s.clientSent);
    assert Total(Step(s, FarRead(n)).up) == s.up.middleLeg[n..] + s.clientSent;
    assert UpStream(s) == s.up.middleLeg + s.clientSent;
  }

  lemma StepKeepsDown(s: State, a: Action)
    requires Inv(s) && Enabled(s, a)
    ensures DownInv(Step(s, a))
  {
    match a
    case ServerSend(bytes) => ServerSendKeepsDown(s, bytes);
    case Down(hop, n) => MoveKeepsDown(s, hop, n);
    case FarAck => FarAckKeepsDown(s);
    case NearAck(n) => NearAckKeepsDown(s, n);
    case ClientSend(_) =>
    case Up(_, _) =>
    case NearAsk =>
    case NearStop =>
    case FarRead(_) =>
    case FarDial(_) =>
    case FarStop =>
  }

  lemma ServerSendKeepsDown(s: State, bytes: seq<byte>)
    requires Inv(s) && Enabled(s, ServerSend(bytes))
    ensures DownInv(Step(s, ServerSend(bytes)))
  {
    TotalAppend(s.down, bytes);
    assert DownStream(Step(s, ServerSend(bytes))) == DownStream(s) + bytes;
    DropAppend(DownStream(s), bytes, s.ackRead);
  }

  lemma MoveKeepsDown(s: State, hop: Hop, n: nat)
    requires Inv(s) && Enabled(s, Down(hop, n))
    ensures DownInv(Step(s, Down(hop, n)))
  {
    MoveKeepsTotal(s.down, hop, n);
  }

  lemma FarAckKeepsDown(s: State)
    requires Inv(s) && Enabled(s, FarAck)
    ensures DownInv(Step(s, FarAck))
  {
    var rest := s.down.firstLeg;
    assert s.down == Pipe([], [], [], [], [], rest);
    assert Total(s.down) == rest;
    assert Total(Step(s, FarAck).down) == [ACK] + rest;
  }

  lemma NearAckKeepsDown(s: State, n: nat)
    requires Inv(s) && Enabled(s, NearAck(n))
    ensures DownInv(Step(s, NearAck(n)))
  {
    var middle, rest := s.down.middleLeg, s.down.firstBuffer + s.down.firstLeg;
    var p := Step(s, NearAck(n)).down;
    assert Total(s.down) == middle + rest && Total(p) == middle[n..] + rest;
    DropAppend(middle, rest, n);
    assert DownStream(s)[0..] == DownStream(s);
  }
}
