/** The code of the two gateways, run against each other: internalProxy, handleExternalConnection and
    the copying both end in, with whatever the rest of the system does between any two of their reads
    and writes. */
module Gateways {
  import opened Words
  import opened Preamble
  import opened Relay
  import opened RelayHazards
  import opened RelayTheorems

  datatype Side = NearSide | FarSide

  /** The steps that this side's code makes. */
  predicate IsOwn(side: Side, a: Action) {
    match a
    case NearAsk => side.NearSide?
    case NearAck(_) => side.NearSide?
    case NearStop => side.NearSide?
    case FarRead(_) => side.FarSide?
    case FarDial(_) => side.FarSide?
    case FarAck => side.FarSide?
    case FarStop => side.FarSide?
    case Up(hop, _) => if hop.ReadFirst? || hop.WriteFirst? then side.NearSide? else !hop.Deliver? && side.FarSide?
    case Down(hop, _) => if hop.ReadFirst? || hop.WriteFirst? then side.FarSide? else !hop.Deliver? && side.NearSide?
    case ClientSend(_) => false
    case ServerSend(_) => false
  }

  /** One relayed connection: both gateways' progress and everything on its way. `actions` is the run
      so far. */
  class Session {
    const wanted: Endpoint
    const own: Endpoint
    var near: Near
    var far: Far
    var up: Pipe
    var down: Pipe
    var clientSent: seq<byte>
    var serverSent: seq<byte>
    var preambleRead: nat
    var ackRead: nat
    var dialled: Option<Endpoint>
    ghost var actions: seq<Action>

    constructor (wanted: Endpoint, own: Endpoint)
      ensures this.wanted == wanted && this.own == own
      ensures Valid() && Snapshot() == Init(wanted, own) && actions == []
    {
      this.wanted, this.own := wanted, own;
      near, far := NearConnected, FarAccepted;
      up, down := NOTHING, NOTHING;
      clientSent, serverSent := [], [];
      preambleRead, ackRead, dialled := 0, 0, None;
      actions := [];
    }

    function Snapshot(): State
      reads this
    {
      State(wanted, own, near, far, up, down, clientSent, serverSent, preambleRead, ackRead, dialled)
    }

    /** What has happened is a run of the relay. */
    ghost predicate Valid()
      reads this
    {
      Legal(Init(wanted, own), actions) && Snapshot() == Exec(Init(wanted, own), actions)
    }

    /** The fields have moved on by one step of the relay. */
    ghost method Did(before: State, a: Action)
      requires Legal(Init(wanted, own), actions) && before == Exec(Init(wanted, own), actions)
      requires Enabled(before, a) && Snapshot() == Step(before, a)
      modifies `actions
      ensures Valid() && actions == old(actions) + [a]
    {
      ExecJoins(Init(wanted, own), actions, [a]);
      assert [a][1..] == [];
      actions := actions + [a];
    }

    // -------------------------------------------------------------- everyone else

    method Apply(a: Action)
      requires Valid() && Enabled(Snapshot(), a)
      modifies this
      ensures Valid() && Snapshot() == Step(old(Snapshot()), a) && actions == old(actions) + [a]
    {
      ghost var before := Snapshot();
      var s := Step(Snapshot(), a);
      near, far, up, down := s.near, s.far, s.up, s.down;
      clientSent, serverSent := s.clientSent, s.serverSent;
      preambleRead, ackRead, dialled := s.preambleRead, s.ackRead, s.dialled;
      Did(before, a);
    }

    /** Any number of steps by the other gateway, the client, the server and the network. */
    method Others(side: Side)
      requires Valid()
      modifies this
      ensures Valid() && old(actions) <= actions && LeavesAlone(side, old(Snapshot()), Snapshot())
    {
      var steps: nat := *;
      while steps > 0
        invariant Valid() && old(actions) <= actions && LeavesAlone(side, old(Snapshot()), Snapshot())
      {
        var a: Action := *;
        if Enabled(Snapshot(), a) && !IsOwn(side, a) {
          OthersLeaveAlone(side, Snapshot(), a);
          Apply(a);
        }
        steps := steps - 1;
      }
    }

    // -------------------------------------------------------------- Copy_gateway

    /** What the first or the second gateway's loop on the way up does next: write what it has read,
        or else read. */
    method CopyUp(first: bool)
      requires Valid()
      requires if first then near.NearPumping? else far.FarPumping?
      modifies `up, `actions
      ensures Valid() && old(actions) <= actions && Moved(old(up), up, first)
    {
      var hop, n := NextMove(up, first);
      if n != 0 {
        ghost var before := Snapshot();
        MovesOn(up, hop, n);
        up := Move(up, hop, n);
        Did(before, Up(hop, n));
      }
    }

    /** And on the way down, where the far gateway is the first. */
    method CopyDown(first: bool)
      requires Valid()
      requires if first then far.FarPumping? else near.NearPumping?
      modifies `down, `actions
      ensures Valid() && old(actions) <= actions && Moved(old(down), down, first)
    {
      var hop, n := NextMove(down, first);
      if n != 0 {
        ghost var before := Snapshot();
        MovesOn(down, hop, n);
        down := Move(down, hop, n);
        Did(before, Down(hop, n));
      }
    }

    /** With nothing else going on, a loop on the way up hands over, in order, everything that was there:
        the near gateway's from the client to the far gateway, the far one's from there to the server. */
    method CopyAllUp(first: bool)
      requires Valid()
      requires if first then near.NearPumping? else far.FarPumping?
      modifies `up, `actions
      ensures Valid() && old(actions) <= actions && up == Drained(old(up), first)
    {
      while if first then up.firstBuffer != [] || up.firstLeg != [] else up.secondBuffer != [] || up.middleLeg != []
        invariant Valid() && old(actions) <= actions && OnlyMoved(old(up), up, first)
        decreases Left(up, first)
      {
        CopyUp(first);
      }
    }

    /** And a loop on the way down. */
    method CopyAllDown(first: bool)
      requires Valid()
      requires if first then far.FarPumping? else near.NearPumping?
      modifies `down, `actions
      ensures Valid() && old(actions) <= actions && down == Drained(old(down), first)
    {
      while if first then down.firstBuffer != [] || down.firstLeg != []
            else down.secondBuffer != [] || down.middleLeg != []
        invariant Valid() && old(actions) <= actions && OnlyMoved(old(down), down, first)
        decreases Left(down, first)
      {
        CopyDown(first);
      }
    }

    /** Both loops of a side, their turns mixed with everyone else's. It ends with the main one, which copies
        what the other gateway sends: when all is copied and that gateway has stopped, or because it is
        `failing`. As long as it does not end, both loops go on until nothing is left to copy. */
    method CopyGateway(side: Side, failing: bool) returns (ended: bool)
      requires Valid() && Pumping(side, Snapshot())
      modifies this
      ensures Valid() && old(actions) <= actions
      ensures Pumping(side, Snapshot()) && KeepsReads(side, old(Snapshot()), Snapshot())
      ensures ended <==> failing || OtherHasStopped(side, Snapshot())
      ensures !failing ==> HasCopiedMain(side, Snapshot())
      ensures !ended ==> HasCopiedBack(side, Snapshot())
    {
      var turns: nat := *;
      while turns > 0
        invariant Valid() && old(actions) <= actions && Pumping(side, Snapshot())
        invariant KeepsReads(side, old(Snapshot()), Snapshot())
      {
        Others(side);
        var upward: bool := *;
        if upward {
          CopyUp(side.NearSide?);
        } else {
          CopyDown(side.FarSide?);
        }
        turns := turns - 1;
      }
      ended := failing || if side.NearSide? then far.FarDone? else near.NearDone?;
      if !failing && (side.NearSide? || !ended) {
        CopyAllDown(side.FarSide?);
      }
      if !failing && (side.FarSide? || !ended) {
        CopyAllUp(side.NearSide?);
      }
    }

    // -------------------------------------------------------------- internalProxy

    method SendDestination()
      requires Valid() && near.NearConnected?
      modifies this
      ensures Valid() && actions == old(actions) + [NearAsk] && near.NearAsked?
    {
      ghost var before := Snapshot();
      var targetDestination := Print(wanted);
      up := up.(middleLeg := up.middleLeg + targetDestination);
      near := NearAsked;
      Did(before, NearAsk);
    }

    /** The reply goes into a buffer that nobody looks at. */
    method AwaitReply()
      requires Valid() && near.NearAsked? && (down.middleLeg != [] || far.FarDone?)
      modifies this
      ensures Valid() && actions == old(actions) + [NearAck(ackRead)] && near.NearPumping?
    {
      ghost var before := Snapshot();
      var tmp := new byte[TMP_SIZE](_ => 0);
      var n := ReadSome(tmp, down.middleLeg);
      down := down.(middleLeg := down.middleLeg[n..]);
      ackRead := n;
      near := NearPumping;
      Did(before, NearAck(n));
    }

    method HangUp(side: Side)
      requires Valid() && Pumping(side, Snapshot())
      modifies this
      ensures Valid() && actions == old(actions) + [if side.NearSide? then NearStop else FarStop]
      ensures Snapshot() == if side.NearSide? then old(Snapshot()).(near := NearDone)
                            else old(Snapshot()).(far := FarDone)
    {
      ghost var before := Snapshot();
      if side.NearSide? {
        near := NearDone;
        Did(before, NearStop);
      } else {
        far := FarDone;
        Did(before, FarStop);
      }
    }

    /** How both sides end: copying, and hanging up once that is over. */
    method CopyToTheEnd(side: Side, failing: bool) returns (outcome: Outcome)
      requires Valid() && Pumping(side, Snapshot())
      modifies this
      ensures Valid() && old(actions) <= actions && KeepsReads(side, old(Snapshot()), Snapshot())
      ensures outcome.Copying? || outcome.HungUp?
      ensures outcome.HungUp? <==> failing || OtherHasStopped(side, Snapshot())
      ensures if outcome.Copying? then Pumping(side, Snapshot()) else IsDone(side, Snapshot())
      ensures !failing ==> HasCopiedMain(side, Snapshot())
      ensures outcome.Copying? ==> HasCopiedBack(side, Snapshot())
    {
      var ended := CopyGateway(side, failing);
      if ended {
        HangUp(side);
        return HungUp;
      }
      return Copying;
    }

    /** Everything after the near gateway has reached the far one. It waits for the reply as long as
        there is none, nor an end of the stream; then reads it, copies whatever there is to copy, and
        hangs up when the far gateway has stopped, or its own copying fails. */
    method InternalProxy(failing: bool) returns (outcome: Outcome)
      requires Valid() && near.NearConnected?
      modifies this
      ensures Valid() && old(actions) <= actions && Inv(Snapshot())
      ensures NearAsk in actions[|old(actions)|..]
      ensures match outcome
              case Waiting => near.NearAsked? && down.middleLeg == [] && !far.FarDone?
              case Copying => near.NearPumping? && !failing && HasCopied(NearSide, Snapshot()) && !far.FarDone?
              case HungUp => near.NearDone? && (failing || (HasCopiedMain(NearSide, Snapshot()) && far.FarDone?))
      ensures outcome.Waiting? || NearAck(ackRead) in actions[|old(actions)|..]
    {
      Others(NearSide);
      ghost var asked := |actions|;
      SendDestination();
      Others(NearSide);
      assert actions[asked] == NearAsk;
      if down.middleLeg == [] && !far.FarDone? {
        outcome := Waiting;
      } else {
        ghost var acked := |actions|;
        AwaitReply();
        outcome := CopyToTheEnd(NearSide, failing);
        assert actions[acked] == NearAck(ackRead);
        IsAmong(actions, |old(actions)|, acked);
      }
      IsAmong(actions, |old(actions)|, asked);
      Reachable(wanted, own, actions);
    }

    // -------------------------------------------------------------- handleExternalConnection

    method ReadDestination()
      requires Valid() && far.FarAccepted? && (up.middleLeg != [] || near.NearDone?)
      modifies this
      ensures Valid() && actions == old(actions) + [FarRead(preambleRead)]
      ensures preambleRead <= |Print(wanted)| && far == FarAsked(Print(wanted)[..preambleRead]) && dialled == None
    {
      ghost var before := Snapshot();
      var tmp := new byte[TMP_SIZE](_ => 0);
      var n := ReadSome(tmp, up.middleLeg);
      var remoteAddress := tmp[..n];
      up := up.(middleLeg := up.middleLeg[n..]);
      preambleRead := n;
      far := FarAsked(remoteAddress);
      Did(before, FarRead(n));
      Reachable(wanted, own, actions);
      EndpointsStay(Init(wanted, own), actions);
    }

    /** The loopback check and the dial; `reachable` is the network's part in the outcome. */
    method DialDestination(reachable: bool) returns (ok: bool)
      requires Valid() && far.FarAsked?
      modifies this
      ensures Valid() && actions == old(actions) + [FarDial(ok)] && preambleRead == old(preambleRead)
      ensures ok <==> reachable && old(far).remote != Print(own) && Parse(old(far).remote).Some?
      ensures if ok then far.FarDialled? && dialled == Parse(old(far).remote)
              else far.FarDone? && dialled == old(dialled)
    {
      ghost var before := Snapshot();
      var remoteAddress := far.remote;
      if remoteAddress == Print(own) {
        far := FarDone;
        Did(before, FarDial(false));
        return false;
      }
      var target := Parse(remoteAddress);
      if target.None? || !reachable {
        far := FarDone;
        Did(before, FarDial(false));
        return false;
      }
      dialled := target;
      far := FarDialled;
      Did(before, FarDial(true));
      return true;
    }

    method Reply()
      requires Valid() && far.FarDialled?
      modifies this
      ensures Valid() && actions == old(actions) + [FarAck]
      ensures far.FarPumping? && dialled == old(dialled) && preambleRead == old(preambleRead)
    {
      ghost var before := Snapshot();
      down := down.(middleLeg := down.middleLeg + [ACK]);
      far := FarPumping;
      Did(before, FarAck);
    }

    /** What follows the read. */
    method Serve(reachable: bool, failing: bool) returns (outcome: Outcome)
      requires Valid() && far.FarAsked? && dialled == None
      modifies this
      ensures Valid() && old(actions) <= actions && preambleRead == old(preambleRead)
      ensures dialled == if reachable && old(far).remote != Print(own) then Parse(old(far).remote) else None
      ensures match outcome
              case Waiting => false
              case Copying => far.FarPumping? && !failing && HasCopied(FarSide, Snapshot()) && !near.NearDone?
              case HungUp =>
                far.FarDone? && (dialled.None? || failing || (HasCopiedMain(FarSide, Snapshot()) && near.NearDone?))
      ensures dialled.Some? ==> FarAck in actions[|old(actions)|..]
    {
      outcome := HungUp;
      var ok := DialDestination(reachable);
      if ok {
        Others(FarSide);
        ghost var replied := |actions|;
        Reply();
        outcome := CopyToTheEnd(FarSide, failing);
        assert actions[replied] == FarAck;
        IsAmong(actions, |old(actions)|, replied);
      }
    }

    /** The far gateway's whole handling of a connection. It waits as long as there is nothing to read,
        nor an end of the stream; then it serves whatever the bytes that it read name, unless that is its
        own address or out of reach: it answers, copies whatever there is to copy, and hangs up when the
        near gateway has stopped, or its own copying fails. */
    method HandleExternalConnection(reachable: bool, failing: bool) returns (outcome: Outcome)
      requires Valid() && far.FarAccepted?
      modifies this
      ensures Valid() && old(actions) <= actions && Inv(Snapshot())
      ensures match outcome
              case Waiting => far.FarAccepted? && up.middleLeg == [] && !near.NearDone?
              case Copying => far.FarPumping? && !failing && HasCopied(FarSide, Snapshot()) && !near.NearDone?
              case HungUp =>
                far.FarDone? && (dialled.None? || failing || (HasCopiedMain(FarSide, Snapshot()) && near.NearDone?))
      ensures !outcome.Waiting? ==>
                && preambleRead <= |Print(wanted)|
                && var remote := Print(wanted)[..preambleRead];
                   dialled == if reachable && remote != Print(own) then Parse(remote) else None
      ensures !outcome.Waiting? && dialled.Some? ==> FarAck in actions[|old(actions)|..]
    {
      Others(FarSide);
      if up.middleLeg == [] && !near.NearDone? {
        outcome := Waiting;
      } else {
        ReadDestination();
        Others(FarSide);
        ghost var read := |actions|;
        outcome := Serve(reachable, failing);
        if dialled.Some? {
          LaterAmong(actions, |old(actions)|, read, FarAck);
        }
      }
      Reachable(wanted, own, actions);
    }
  }

  /** Where the code of a side has got to: waiting for its first read, copying, with nothing left to copy
      for now, or done. */
  datatype Outcome = Waiting | Copying | HungUp

  /** Nothing is left to copy for a side's main loop, from the other gateway on. */
  predicate HasCopiedMain(side: Side, s: State) {
    match side
    case NearSide => s.down.middleLeg == s.down.secondBuffer == []
    case FarSide => s.up.middleLeg == s.up.secondBuffer == []
  }

  /** Nor for its other one, to the other gateway. */
  predicate HasCopiedBack(side: Side, s: State) {
    match side
    case NearSide => s.up.firstLeg == s.up.firstBuffer == []
    case FarSide => s.down.firstLeg == s.down.firstBuffer == []
  }

  predicate HasCopied(side: Side, s: State) {
    HasCopiedMain(side, s) && HasCopiedBack(side, s)
  }

  predicate IsDone(side: Side, s: State) {
    match side
    case NearSide => s.near.NearDone?
    case FarSide => s.far.FarDone?
  }

  predicate OtherHasStopped(side: Side, s: State) {
    match side
    case NearSide => s.far.FarDone?
    case FarSide => s.near.NearDone?
  }

  /** So a side that does not fail hangs up only where this is right. */
  lemma StopsRightly(side: Side, s: State)
    requires HasCopiedMain(side, s) && OtherHasStopped(side, s)
    ensures StopsAtEnd(s, if side.NearSide? then NearStop else FarStop)
  {
  }

  predicate KeepsReads(side: Side, s: State, s': State) {
    match side
    case NearSide => s'.ackRead == s.ackRead
    case FarSide => s'.dialled == s.dialled && s'.preambleRead == s.preambleRead
  }

  lemma IsAmong(actions: seq<Action>, start: nat, i: nat)
    requires start <= i < |actions|
    ensures actions[i] in actions[start..]
  {
    assert actions[start..][i - start] == actions[i];
  }

  lemma LaterAmong(actions: seq<Action>, start: nat, later: nat, a: Action)
    requires start <= later <= |actions| && a in actions[later..]
    ensures a in actions[start..]
  {
    var k :| 0 <= k < |actions[later..]| && actions[later..][k] == a;
    IsAmong(actions, start, later + k);
  }

  /** The bytes that the loop had before it and in its buffer, behind those it had handed over. */
  function Drained(p: Pipe, first: bool): Pipe {
    if first then
      p.(firstLeg := [], firstBuffer := [], middleLeg := p.middleLeg + (p.firstBuffer + p.firstLeg))
    else
      p.(middleLeg := [], secondBuffer := [], lastLeg := p.lastLeg + (p.secondBuffer + p.middleLeg))
  }

  function Left(p: Pipe, first: bool): nat {
    if first then 2 * |p.firstLeg| + |p.firstBuffer| else 2 * |p.middleLeg| + |p.secondBuffer|
  }

  predicate Pumping(side: Side, s: State) {
    match side
    case NearSide => s.near.NearPumping?
    case FarSide => s.far.FarPumping?
  }

  /** What the others can do to a side: not touch its progress, and add to the streams it reads. */
  predicate LeavesAlone(side: Side, s: State, s': State) {
    match side
    case NearSide =>
      && s'.near == s.near && s'.ackRead == s.ackRead
      && s.down.middleLeg <= s'.down.middleLeg && s.up.firstLeg <= s'.up.firstLeg
    case FarSide =>
      && s'.far == s.far && s'.dialled == s.dialled && s'.preambleRead == s.preambleRead
      && s.up.middleLeg <= s'.up.middleLeg && s.down.firstLeg <= s'.down.firstLeg
  }

  lemma OthersLeaveAlone(side: Side, s: State, a: Action)
    requires Enabled(s, a) && !IsOwn(side, a)
    ensures LeavesAlone(side, s, Step(s, a))
  {
  }

  /** The bytes before a gateway, in its buffer and behind it, are the same. */
  predicate OnlyMoved(p: Pipe, p': Pipe, first: bool) {
    if first then
      && p' == p.(firstLeg := p'.firstLeg, firstBuffer := p'.firstBuffer, middleLeg := p'.middleLeg)
      && p'.middleLeg + (p'.firstBuffer + p'.firstLeg) == p.middleLeg + (p.firstBuffer + p.firstLeg)
    else
      && p' == p.(middleLeg := p'.middleLeg, secondBuffer := p'.secondBuffer, lastLeg := p'.lastLeg)
      && p'.lastLeg + (p'.secondBuffer + p'.middleLeg) == p.lastLeg + (p.secondBuffer + p.middleLeg)
  }

  /** And fewer are left to move, unless there are none. */
  predicate Moved(p: Pipe, p': Pipe, first: bool) {
    OnlyMoved(p, p', first) && (Left(p, first) == 0 || Left(p', first) < Left(p, first))
  }

  lemma MovesOn(p: Pipe, hop: Hop, n: nat)
    requires CanMove(p, hop, n) && !hop.Deliver?
    ensures Moved(p, Move(p, hop, n), hop.ReadFirst? || hop.WriteFirst?)
  {
    match hop
    case ReadFirst => assert p.firstLeg[..n] + p.firstLeg[n..] == p.firstLeg;
    case WriteFirst => Regroup(p.middleLeg, p.firstBuffer, n, p.firstLeg);
    case ReadSecond => assert p.middleLeg[..n] + p.middleLeg[n..] == p.middleLeg;
    case WriteSecond => Regroup(p.lastLeg, p.secondBuffer, n, p.middleLeg);
  }

  /** What a copy loop's next read or write moves; n is 0 when it has to wait. */
  method NextMove(p: Pipe, first: bool) returns (hop: Hop, n: nat)
    ensures hop in (if first then {ReadFirst, WriteFirst} else {ReadSecond, WriteSecond})
    ensures if n == 0 then Source(p, if first then ReadFirst else ReadSecond) ==
                           Source(p, if first then WriteFirst else WriteSecond) == []
            else CanMove(p, hop, n)
  {
    hop, n := if first then WriteFirst else WriteSecond, 0;
    if Source(p, hop) != [] {
      n :| 1 <= n <= |Source(p, hop)|;
    } else {
      hop := if first then ReadFirst else ReadSecond;
      if Source(p, hop) != [] {
        n :| 1 <= n <= |Source(p, hop)| && n <= COPY_BUFFER;
      }
    }
  }

  /** conn.Read: some of the stream's first bytes, copied to the front of the buffer; none only at the
      end of the stream. */
  method ReadSome(tmp: array<byte>, stream: seq<byte>) returns (n: nat)
    requires tmp.Length == TMP_SIZE
    modifies tmp
    ensures n <= |stream| && n <= TMP_SIZE && (n == 0 <==> stream == [])
    ensures tmp[..n] == stream[..n]
  {
    if stream == [] {
      return 0;
    }
    n :| 1 <= n <= |stream| && n <= TMP_SIZE;
    for i := 0 to n
      invariant tmp[..i] == stream[..i]
    {
      tmp[i] := stream[i];
    }
  }
}
