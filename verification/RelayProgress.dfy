/** No reachable relay state is stuck: unless a gateway has hung up, or the dial is bound to be
    refused, the run can continue until every byte sent so far has been received. */
module RelayProgress {
  import opened Words
  import opened Preamble
  import opened Relay
  import opened RelayTheorems

  /** Neither gateway has hung up, and the far one's dial can succeed. */
  predicate Viable(s: State) {
    && !s.near.NearDone? && !s.far.FarDone?
    && (s.far.FarAccepted? ==> s.wanted != s.own)
    && (s.far.FarAsked? ==> s.far.remote != Print(s.own) && Parse(s.far.remote).Some?)
  }

  function NearRank(near: Near): nat {
    match near
    case NearConnected => 2
    case NearAsked => 1
    case NearPumping => 0
    case NearDone => 0
  }

  function FarRank(far: Far): nat {
    match far
    case FarAccepted => 3
    case FarAsked(_) => 2
    case FarDialled => 1
    case FarPumping => 0
    case FarDone => 0
  }

  /** The hops that the bytes of a pipe have before them. */
  function Distance(p: Pipe): nat {
    5 * |p.firstLeg| + 4 * |p.firstBuffer| + 3 * |p.middleLeg| + 2 * |p.secondBuffer| + |p.lastLeg|
  }

  function AtMost(n: nat, bound: nat): nat {
    if n <= bound then n else bound
  }

  function NextHop(p: Pipe): (Hop, nat) {
    if p.lastLeg != [] then (Deliver, |p.lastLeg|)
    else if p.secondBuffer != [] then (WriteSecond, |p.secondBuffer|)
    else if p.middleLeg != [] then (ReadSecond, AtMost(|p.middleLeg|, COPY_BUFFER))
    else if p.firstBuffer != [] then (WriteFirst, |p.firstBuffer|)
    else (ReadFirst, AtMost(|p.firstLeg|, COPY_BUFFER))
  }

  lemma HopsAdvance(p: Pipe)
    requires Distance(p) != 0
    ensures var (hop, n) := NextHop(p); CanMove(p, hop, n) && Distance(Move(p, hop, n)) < Distance(p)
  {
  }

  lemma AllArrived(p: Pipe)
    requires Distance(p) == 0
    ensures Total(p) == p.arrived
  {
  }

  /** What the gateways may do next. */
  function Next(s: State): Action {
    if s.near.NearConnected? then NearAsk
    else if s.far.FarAccepted? then FarRead(|s.up.middleLeg|)
    else if s.far.FarAsked? then FarDial(true)
    else if s.far.FarDialled? then FarAck
    else if s.near.NearAsked? then NearAck(1)
    else if Distance(s.up) != 0 then var (hop, n) := NextHop(s.up); Up(hop, n)
    else var (hop, n) := NextHop(s.down); Down(hop, n)
  }

  predicate Settled(s: State) {
    s.near.NearPumping? && s.far.FarPumping? && Distance(s.up) == 0 && Distance(s.down) == 0
  }

  lemma HandshakeAdvances(s: State)
    requires Inv(s) && Viable(s) && !(s.near.NearPumping? && s.far.FarPumping?)
    ensures Enabled(s, Next(s))
    ensures var s' := Step(s, Next(s));
            && Viable(s') && NearRank(s'.near) + FarRank(s'.far) < NearRank(s.near) + FarRank(s.far)
            && s'.clientSent == s.clientSent && s'.serverSent == s.serverSent
            && (Clean(s) ==> Clean(s'))
  {
    if !s.near.NearConnected? && s.far.FarAccepted? {
      PreambleIsAlone(s);
      PrintFits(s.wanted);
      ParsePrint(s.wanted);
      PrintIsInjective(s.wanted, s.own);
      assert s.up.middleLeg[..|s.up.middleLeg|] == s.up.middleLeg;
    }
  }

  lemma PumpsAdvance(s: State)
    requires Inv(s) && Viable(s) && s.near.NearPumping? && s.far.FarPumping? && !Settled(s)
    ensures Enabled(s, Next(s))
    ensures var s' := Step(s, Next(s));
            && Viable(s') && s'.near == s.near && s'.far == s.far
            && Distance(s'.up) + Distance(s'.down) < Distance(s.up) + Distance(s.down)
            && s'.clientSent == s.clientSent && s'.serverSent == s.serverSent
            && (Clean(s) ==> Clean(s'))
  {
    if Distance(s.up) != 0 {
      HopsAdvance(s.up);
    } else {
      HopsAdvance(s.down);
    }
  }

  /** A continuation in which all that was sent arrives; it keeps a clean run clean. */
  lemma {:induction false} Settles(s: State) returns (actions: seq<Action>)
    requires Inv(s) && Viable(s)
    ensures Legal(s, actions)
    ensures var s' := Exec(s, actions);
            && Settled(s') && s'.clientSent == s.clientSent && s'.serverSent == s.serverSent
            && (Clean(s) ==> Clean(s'))
    decreases NearRank(s.near) + FarRank(s.far), Distance(s.up) + Distance(s.down)
  {
    if Settled(s) {
      actions := [];
    } else {
      if s.near.NearPumping? && s.far.FarPumping? {
        PumpsAdvance(s);
      } else {
        HandshakeAdvances(s);
      }
      var a := Next(s);
      StepKeepsInv(s, a);
      var rest := Settles(Step(s, a));
      actions := [a] + rest;
      assert actions[1..] == rest;
    }
  }

  // ---------------------------------------------------------------- all runs

  /** What gateways, network and readers do by themselves: nothing is sent, no one hangs up and no
      dial fails. */
  predicate IsInternal(a: Action) {
    !a.ClientSend? && !a.ServerSend? && !a.NearStop? && !a.FarStop? && (a.FarDial? ==> a.ok)
  }

  predicate Alive(s: State) {
    !s.near.NearDone? && !s.far.FarDone?
  }

  function NearWork(near: Near): nat {
    match near
    case NearConnected => 65
    case NearAsked => 1
    case NearPumping => 0
    case NearDone => 0
  }

  function FarWork(far: Far): nat {
    match far
    case FarAccepted => 6
    case FarAsked(_) => 5
    case FarDialled => 4
    case FarPumping => 0
    case FarDone => 0
  }

  /** A bound on the steps that are left: the hops before all bytes, with room for the preamble and the
      'Y' as long as they are not on their way. */
  function Work(s: State): nat {
    Distance(s.up) + Distance(s.down) + NearWork(s.near) + FarWork(s.far)
  }

  lemma MoveWorks(p: Pipe, hop: Hop, n: nat)
    requires CanMove(p, hop, n)
    ensures Distance(Move(p, hop, n)) < Distance(p)
  {
  }

  lemma StepWorks(s: State, a: Action)
    requires Inv(s) && Alive(s) && Enabled(s, a) && IsInternal(a)
    ensures Inv(Step(s, a)) && Alive(Step(s, a)) && Work(Step(s, a)) < Work(s)
  {
    StepKeepsInv(s, a);
    if a.Up? {
      MoveWorks(s.up, a.hop, a.n);
    } else if a.Down? {
      MoveWorks(s.down, a.hop, a.n);
    } else {
      HandshakeWorks(s, a);
    }
  }

  lemma HandshakeWorks(s: State, a: Action)
    requires Alive(s) && Enabled(s, a) && IsInternal(a) && !a.Up? && !a.Down?
    ensures Alive(Step(s, a)) && Work(Step(s, a)) < Work(s)
  {
    PrintFits(s.wanted);
  }

  lemma {:induction false} RunsAreFinite(s: State, actions: seq<Action>)
    requires Inv(s) && Alive(s) && Legal(s, actions) && forall i | 0 <= i < |actions| :: IsInternal(actions[i])
    ensures |actions| <= Work(s) && Inv(Exec(s, actions)) && Alive(Exec(s, actions))
    decreases |actions|
  {
    if actions == [] {
    } else {
      StepWorks(s, actions[0]);
      RunsAreFinite(Step(s, actions[0]), actions[1..]);
    }
  }

  /** The far gateway is about to dial what it cannot or must not dial. */
  predicate DialMustFail(s: State) {
    s.far.FarAsked? && (s.far.remote == Print(s.own) || Parse(s.far.remote).None?)
  }

  ghost predicate IsQuiescent(s: State) {
    forall a | IsInternal(a) :: !Enabled(s, a)
  }

  lemma NextIsEnabled(s: State)
    requires Inv(s) && Alive(s) && !Settled(s) && !DialMustFail(s)
    ensures IsInternal(Next(s)) && Enabled(s, Next(s))
  {
    if !s.near.NearConnected? && s.far.FarAccepted? {
      PreambleIsAlone(s);
      PrintFits(s.wanted);
    } else if s.near.NearPumping? && s.far.FarPumping? {
      if Distance(s.up) != 0 {
        HopsAdvance(s.up);
      } else {
        HopsAdvance(s.down);
      }
    }
  }

  lemma NothingEnabled(s: State, a: Action)
    requires Inv(s) && Alive(s) && IsInternal(a) && (Settled(s) || DialMustFail(s))
    ensures !Enabled(s, a)
  {
  }

  /** Nothing goes on by itself exactly where all bytes have arrived or the dial is bound to fail. */
  lemma QuiescentExactlyWhen(s: State)
    requires Inv(s) && Alive(s)
    ensures IsQuiescent(s) <==> Settled(s) || DialMustFail(s)
  {
    if Settled(s) || DialMustFail(s) {
      forall a | IsInternal(a)
        ensures !Enabled(s, a)
      {
        NothingEnabled(s, a);
      }
    } else {
      NextIsEnabled(s);
    }
  }

  /** Everything in its place. */
  predicate AllDelivered(s: State) {
    && s.dialled.Some? && s.preambleRead <= |Print(s.wanted)| && 1 <= s.ackRead <= 1 + |s.serverSent|
    && s.up.arrived == Print(s.wanted)[s.preambleRead..] + s.clientSent
    && s.down.arrived == s.serverSent[s.ackRead - 1..]
    && (Clean(s) ==> s.dialled == Some(s.wanted) && s.up.arrived == s.clientSent && s.down.arrived == s.serverSent)
  }

  lemma SettledIsDelivered(s: State)
    requires Inv(s) && Settled(s)
    ensures AllDelivered(s)
  {
    AllArrived(s.up);
    AllArrived(s.down);
    assert UpStream(s)[s.preambleRead..] == Print(s.wanted)[s.preambleRead..] + s.clientSent;
    assert ([ACK] + s.serverSent)[s.ackRead..] == s.serverSent[s.ackRead - 1..];
    if Clean(s) {
      ParsePrint(s.wanted);
      assert Print(s.wanted)[..s.preambleRead] == Print(s.wanted);
    }
  }

  /** Whatever the order of steps and the sizes of reads: from a reachable state where no gateway has
      hung up, every run without sends, hang-ups and failing dials is finite, and where it can go no
      further all bytes have been delivered, unless a dial is bound to fail. */
  lemma EveryRunDelivers(wanted: Endpoint, own: Endpoint, actions: seq<Action>, more: seq<Action>)
    requires Legal(Init(wanted, own), actions) && Alive(Exec(Init(wanted, own), actions))
    requires Legal(Exec(Init(wanted, own), actions), more)
    requires forall i | 0 <= i < |more| :: IsInternal(more[i])
    ensures var s := Exec(Init(wanted, own), actions);
            var s' := Exec(s, more);
            && |more| <= Work(s)
            && (IsQuiescent(s') <==> Settled(s') || DialMustFail(s'))
            && (Settled(s') ==> AllDelivered(s'))
  {
    Reachable(wanted, own, actions);
    var s := Exec(Init(wanted, own), actions);
    RunsAreFinite(s, more);
    QuiescentExactlyWhen(Exec(s, more));
    if Settled(Exec(s, more)) {
      SettledIsDelivered(Exec(s, more));
    }
  }

  // ---------------------------------------------------------------- a run that delivers

  /** From every reachable viable state the run can go on to one where the server has received all
      the client sent (after what a short preamble read left over) and the client all the server
      sent (less what a long acknowledgement read took). */
  lemma NeverStuck(wanted: Endpoint, own: Endpoint, actions: seq<Action>) returns (more: seq<Action>)
    requires Legal(Init(wanted, own), actions) && Viable(Exec(Init(wanted, own), actions))
    ensures var s := Exec(Init(wanted, own), actions);
            && Legal(s, more)
            && var s' := Exec(s, more);
               && s'.dialled.Some? && s'.preambleRead <= |Print(wanted)| && 1 <= s'.ackRead <= 1 + |s.serverSent|
               && s'.up.arrived == Print(wanted)[s'.preambleRead..] + s.clientSent
               && s'.down.arrived == s.serverSent[s'.ackRead - 1..]
               && (Clean(s) ==>
                     s'.dialled == Some(wanted) && s'.up.arrived == s.clientSent && s'.down.arrived == s.serverSent)
  {
    Reachable(wanted, own, actions);
    EndpointsStay(Init(wanted, own), actions);
    var s := Exec(Init(wanted, own), actions);
    more := Settles(s);
    ExecKeepsInv(s, more);
    EndpointsStay(s, more);
    SettledIsDelivered(Exec(s, more));
  }
}
