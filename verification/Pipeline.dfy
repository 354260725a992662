/** The three cores of dpdk-16.07/app/test-pipeline/runtime.c as an interleaving of steps: RX reads
    packets from the ports into the RX rings, the worker moves them to the TX ring of the
    neighbouring port, and TX collects them in a buffer per port and sends them. */
module Pipeline {
  import Binary

  type Packet = nat

  /** A packet that has left the pipeline: the port took it, or the core freed it. */
  datatype Departure = Sent(packet: Packet) | Freed(packet: Packet)

  function Packets(ds: seq<Departure>): seq<Packet> {
    seq(|ds|, k requires 0 <= k < |ds| => ds[k].packet)
  }

  /** A burst of which the port takes the first `sent` packets. */
  function Burst(packets: seq<Packet>, sent: nat): (ds: seq<Departure>)
    requires sent <= |packets|
    ensures |ds| == |packets| && Packets(ds) == packets
    ensures forall k :: 0 <= k < |ds| ==> (ds[k].Sent? <==> k < sent)
  {
    seq(|packets|, k requires 0 <= k < |packets| => if k < sent then Sent(packets[k]) else Freed(packets[k]))
  }

  /** The parameters of the application; a ring holds at most its capacity. */
  datatype Config = Config(ports: nat, rxRead: nat, workerRead: nat, workerWrite: nat, txRead: nat, txWrite: nat,
                           rxCapacity: nat, txCapacity: nat, arraySize: nat) {
    /** An even number of ports, and bursts that fit the arrays. */
    ghost predicate Valid() {
      && ports >= 2 && ports % 2 == 0
      && 0 < workerRead <= arraySize && workerRead == workerWrite
      && 0 < txRead && 0 < txWrite && txWrite - 1 + txRead <= arraySize
    }
  }

  /** i ^ 1, see `PortMasks`. */
  function Partner(i: nat): nat {
    if i % 2 == 0 then i + 1 else i - 1
  }

  /** (i + 1) & (n_ports - 1), see `PortMasks`. */
  function NextPort(c: Config, i: nat): nat
    requires c.ports > 0
  {
    (i + 1) % c.ports
  }

  /** For the powers of two the program insists on, the masks of its loops are those functions. */
  lemma PortMasks(c: Config, i: nat, k: nat)
    requires c.ports == Binary.Pow2(k)
    ensures NextPort(c, i) == Binary.And(i + 1, c.ports - 1) && Partner(i) == Binary.Xor(i, 1)
  {
    Binary.WithMask(i + 1, k);
    Binary.XorWithOne(i);
  }

  /** The shared rings and buffers, the local state of each core, and what has come in and gone
      out at each port since the start. */
  datatype State = State(
    rxPort: nat, rxHand: seq<Packet>,                          // RX: packets it is trying to enqueue
    workerPort: nat, workerArray: seq<Packet>, workerBusy: bool,
    txPort: nat, txFull: bool,                                 // TX: a burst is due on txPort
    rxRings: seq<seq<Packet>>, txRings: seq<seq<Packet>>, txBuffers: seq<seq<Packet>>,
    received: seq<seq<Packet>>, gone: seq<seq<Departure>>)

  /** One atomic action of one core.  A burst read brings in any packets; a burst send takes any
      number of packets and the core frees the rest. */
  datatype Action =
    | RxBurst(packets: seq<Packet>) | RxEnqueue
    | WorkerDequeue | WorkerEnqueue
    | TxDequeue | TxBurst(sent: nat)

  ghost predicate Shape(c: Config, s: State) {
    && c.ports > 0
    && s.rxPort < c.ports && s.workerPort < c.ports && s.txPort < c.ports
    && |s.workerArray| == c.arraySize
    && |s.rxRings| == |s.txRings| == |s.txBuffers| == |s.received| == |s.gone| == c.ports
  }

  /** Whether a core can take an action now. */
  predicate Enabled(c: Config, s: State, a: Action) {
    match a
    case RxBurst(packets) => s.rxHand == [] && |packets| <= c.rxRead
    case RxEnqueue => s.rxHand != []
    case WorkerDequeue => !s.workerBusy
    case WorkerEnqueue => s.workerBusy
    case TxDequeue => !s.txFull
    case TxBurst(sent) => s.txFull && s.txPort < |s.txBuffers| && sent <= |s.txBuffers[s.txPort]|
  }

  function Perform(c: Config, s: State, a: Action): State
    requires Shape(c, s) && c.Valid() && Enabled(c, s, a)
  {
    match a
    case RxBurst(packets) =>
      var i := s.rxPort;
      if packets == [] then s.(rxPort := NextPort(c, i))
      else s.(rxHand := packets, received := s.received[i := s.received[i] + packets])
    case RxEnqueue =>
      var i := s.rxPort;
      if |s.rxRings[i]| + |s.rxHand| > c.rxCapacity then s // -ENOBUFS, try again
      else s.(rxHand := [], rxRings := s.rxRings[i := s.rxRings[i] + s.rxHand], rxPort := NextPort(c, i))
    case WorkerDequeue =>
      var i := s.workerPort;
      var ring := s.rxRings[i];
      if |ring| < c.workerRead then s.(workerPort := NextPort(c, i)) // -ENOENT
      else s.(rxRings := s.rxRings[i := ring[c.workerRead..]], workerBusy := true,
              workerArray := ring[..c.workerRead] + s.workerArray[c.workerRead..])
    case WorkerEnqueue =>
      PartnerBelow(c, s.workerPort);
      var j := Partner(s.workerPort);
      if |s.txRings[j]| + c.workerWrite > c.txCapacity then s // -ENOBUFS, try again
      else s.(txRings := s.txRings[j := s.txRings[j] + s.workerArray[..c.workerWrite]], workerBusy := false,
              workerPort := NextPort(c, s.workerPort))
    case TxDequeue =>
      var i := s.txPort;
      var ring := s.txRings[i];
      if |ring| < c.txRead then s.(txPort := NextPort(c, i)) // -ENOENT
      else
        var buffer := s.txBuffers[i] + ring[..c.txRead];
        var s' := s.(txRings := s.txRings[i := ring[c.txRead..]], txBuffers := s.txBuffers[i := buffer]);
        if |buffer| < c.txWrite then s'.(txPort := NextPort(c, i)) else s'.(txFull := true)
    case TxBurst(sent) =>
      // the packets sent, then those freed because the port did not take them
      var i := s.txPort;
      s.(gone := s.gone[i := s.gone[i] + Burst(s.txBuffers[i], sent)], txBuffers := s.txBuffers[i := []],
         txFull := false, txPort := NextPort(c, i))
  }

  lemma PartnerBelow(c: Config, i: nat)
    requires c.Valid() && i < c.ports
    ensures Partner(i) < c.ports && Partner(Partner(i)) == i && Partner(i) != i
  {
  }

  function Initial(c: Config, garbage: seq<Packet>): State {
    var none := seq(c.ports, _ => []);
    State(0, [], 0, garbage, false, 0, false, none, none, none, none, seq(c.ports, _ => []))
  }

  lemma KeepsShape(c: Config, s: State, a: Action)
    requires Shape(c, s) && c.Valid() && Enabled(c, s, a)
    ensures Shape(c, Perform(c, s, a))
  {
    PartnerBelow(c, s.workerPort);
  }

  /** A run: any actions in any order, those a core can not take just then being skipped. */
  function Run(c: Config, s: State, actions: seq<Action>): State
    requires Shape(c, s) && c.Valid()
    decreases |actions|
  {
    hide Perform, Enabled, Shape;
    if actions == [] then s
    else if Enabled(c, s, actions[0]) then
      KeepsShape(c, s, actions[0]);
      Run(c, Perform(c, s, actions[0]), actions[1..])
    else Run(c, s, actions[1..])
  }

  // ----- Invariant -----

  /** What RX holds for port i, and what the worker holds from port i. */
  function InRxHand(s: State, i: nat): seq<Packet> {
    if s.rxPort == i then s.rxHand else []
  }

  function InWorkerHand(c: Config, s: State, i: nat): seq<Packet>
    requires c.workerWrite <= |s.workerArray|
  {
    if s.workerPort == i && s.workerBusy then s.workerArray[..c.workerWrite] else []
  }

  /** Everything received on port i, in order, is where the pipeline has it. */
  ghost predicate Flow(c: Config, s: State, i: nat)
    requires Shape(c, s) && c.Valid() && i < c.ports
  {
    PartnerBelow(c, i);
    var j := Partner(i);
    s.received[i] == Packets(s.gone[j]) + s.txBuffers[j] + s.txRings[j] + InWorkerHand(c, s, i) + s.rxRings[i] + InRxHand(s, i)
  }

  ghost predicate Bounds(c: Config, s: State)
    requires Shape(c, s)
  {
    forall i :: 0 <= i < c.ports ==>
      && |s.rxRings[i]| <= c.rxCapacity && |s.txRings[i]| <= c.txCapacity
      && |s.txBuffers[i]| < c.txWrite + (if s.txFull && s.txPort == i then c.txRead else 0)
  }

  ghost predicate Inv(c: Config, s: State) {
    Shape(c, s) && c.Valid() && Bounds(c, s) && forall i :: 0 <= i < c.ports ==> Flow(c, s, i)
  }

  // Each core only moves a burst from one place of the flow to the next.

  lemma RxKeepsFlow(c: Config, s: State, a: Action, i: nat)
    requires Shape(c, s) && c.Valid() && i < c.ports && Flow(c, s, i)
    requires (a.RxBurst? || a.RxEnqueue?) && Enabled(c, s, a)
    ensures Shape(c, Perform(c, s, a)) && Flow(c, Perform(c, s, a), i)
  {
    PartnerBelow(c, i);
    var j := Partner(i);
    var upstream := Packets(s.gone[j]) + s.txBuffers[j] + s.txRings[j] + InWorkerHand(c, s, i);
    assert InWorkerHand(c, Perform(c, s, a), i) == InWorkerHand(c, s, i);
    if i == s.rxPort {
      if a.RxBurst? {
        assert upstream + s.rxRings[i] + [] + a.packets == upstream + s.rxRings[i] + a.packets;
      } else {
        assert upstream + s.rxRings[i] + s.rxHand == upstream + (s.rxRings[i] + s.rxHand) + [];
      }
    }
  }

  lemma DequeueKeepsFlow(c: Config, s: State, i: nat)
    requires Shape(c, s) && c.Valid() && i < c.ports && Flow(c, s, i) && !s.workerBusy
    ensures Shape(c, Perform(c, s, WorkerDequeue)) && Flow(c, Perform(c, s, WorkerDequeue), i)
  {
    PartnerBelow(c, i);
    var j, s' := Partner(i), Perform(c, s, WorkerDequeue);
    var upstream := Packets(s.gone[j]) + s.txBuffers[j] + s.txRings[j];
    if i == s.workerPort && |s.rxRings[i]| >= c.workerRead {
      var ring := s.rxRings[i];
      assert InWorkerHand(c, s', i) == ring[..c.workerRead];
      assert ring == ring[..c.workerRead] + ring[c.workerRead..];
      assert upstream + [] + ring == upstream + ring[..c.workerRead] + ring[c.workerRead..];
    }
  }

  lemma EnqueueKeepsFlow(c: Config, s: State, i: nat)
    requires Shape(c, s) && c.Valid() && i < c.ports && Flow(c, s, i) && s.workerBusy
    ensures Shape(c, Perform(c, s, WorkerEnqueue)) && Flow(c, Perform(c, s, WorkerEnqueue), i)
  {
    PartnerBelow(c, i); PartnerBelow(c, s.workerPort);
    var j, s' := Partner(i), Perform(c, s, WorkerEnqueue);
    if i == s.workerPort && |s.txRings[j]| + c.workerWrite <= c.txCapacity {
      var hand := s.workerArray[..c.workerWrite];
      var left := Packets(s.gone[j]) + s.txBuffers[j];
      assert left + s.txRings[j] + hand == left + (s.txRings[j] + hand) + [];
    }
  }

  lemma CollectKeepsFlow(c: Config, s: State, i: nat)
    requires Shape(c, s) && c.Valid() && i < c.ports && Flow(c, s, i) && !s.txFull
    ensures Shape(c, Perform(c, s, TxDequeue)) && Flow(c, Perform(c, s, TxDequeue), i)
  {
    hide Packets;
    PartnerBelow(c, i);
    var j, s' := Partner(i), Perform(c, s, TxDequeue);
    assert InWorkerHand(c, s', i) == InWorkerHand(c, s, i) && InRxHand(s', i) == InRxHand(s, i);
    if j == s.txPort && |s.txRings[j]| >= c.txRead {
      var ring, gone := s.txRings[j], Packets(s.gone[j]);
      assert ring == ring[..c.txRead] + ring[c.txRead..];
      assert gone + s.txBuffers[j] + ring == gone + (s.txBuffers[j] + ring[..c.txRead]) + ring[c.txRead..];
    }
  }

  lemma PacketsAppend(ds: seq<Departure>, more: seq<Departure>)
    ensures Packets(ds + more) == Packets(ds) + Packets(more) + []
  {
  }

  /** However many packets of a burst the port takes. */
  lemma SendKeepsFlow(c: Config, s: State, sent: nat, i: nat)
    requires Shape(c, s) && c.Valid() && i < c.ports && Flow(c, s, i) && Enabled(c, s, TxBurst(sent))
    ensures Shape(c, Perform(c, s, TxBurst(sent))) && Flow(c, Perform(c, s, TxBurst(sent)), i)
  {
    hide Packets, Burst;
    PartnerBelow(c, i);
    var j, s' := Partner(i), Perform(c, s, TxBurst(sent));
    assert InWorkerHand(c, s', i) == InWorkerHand(c, s, i) && InRxHand(s', i) == InRxHand(s, i);
    if j == s.txPort {
      PacketsAppend(s.gone[j], Burst(s.txBuffers[j], sent));
    }
  }

  lemma RxKeepsBounds(c: Config, s: State, a: Action)
    requires Shape(c, s) && c.Valid() && Bounds(c, s) && Enabled(c, s, a) && (a.RxBurst? || a.RxEnqueue?)
    ensures Shape(c, Perform(c, s, a)) && Bounds(c, Perform(c, s, a))
  {
  }

  lemma WorkerKeepsBounds(c: Config, s: State, a: Action)
    requires Shape(c, s) && c.Valid() && Bounds(c, s) && Enabled(c, s, a) && (a.WorkerDequeue? || a.WorkerEnqueue?)
    ensures Shape(c, Perform(c, s, a)) && Bounds(c, Perform(c, s, a))
  {
    PartnerBelow(c, s.workerPort);
  }

  lemma TxKeepsBounds(c: Config, s: State, a: Action)
    requires Shape(c, s) && c.Valid() && Bounds(c, s) && Enabled(c, s, a) && (a.TxDequeue? || a.TxBurst?)
    ensures Shape(c, Perform(c, s, a)) && Bounds(c, Perform(c, s, a))
  {
  }

  lemma PerformKeepsInv(c: Config, s: State, a: Action)
    requires Inv(c, s) && Enabled(c, s, a)
    ensures Inv(c, Perform(c, s, a))
  {
    hide Flow, Perform, Bounds, Enabled;
    if a.RxBurst? || a.RxEnqueue? {
      RxKeepsBounds(c, s, a);
    } else if a.WorkerDequeue? || a.WorkerEnqueue? {
      WorkerKeepsBounds(c, s, a);
    } else {
      TxKeepsBounds(c, s, a);
    }
    assert Enabled(c, s, a);
    forall i | 0 <= i < c.ports ensures Flow(c, Perform(c, s, a), i) {
      match a {
        case RxBurst(_) => RxKeepsFlow(c, s, a, i);
        case RxEnqueue => RxKeepsFlow(c, s, a, i);
        case WorkerDequeue => WorkerFree(c, s); DequeueKeepsFlow(c, s, i);
        case WorkerEnqueue => WorkerFree(c, s); EnqueueKeepsFlow(c, s, i);
        case TxDequeue => TxFree(c, s); CollectKeepsFlow(c, s, i);
        case TxBurst(sent) => SendKeepsFlow(c, s, sent, i);
      }
    }
  }

  lemma WorkerFree(c: Config, s: State)
    ensures Enabled(c, s, WorkerDequeue) == !s.workerBusy && Enabled(c, s, WorkerEnqueue) == s.workerBusy
  {
  }

  lemma TxFree(c: Config, s: State)
    ensures Enabled(c, s, TxDequeue) == !s.txFull
  {
  }

  lemma InitialInv(c: Config, garbage: seq<Packet>)
    requires c.Valid() && |garbage| == c.arraySize
    ensures Inv(c, Initial(c, garbage))
  {
    forall i | 0 <= i < c.ports ensures Flow(c, Initial(c, garbage), i) { PartnerBelow(c, i); }
  }

  /** In every interleaving, from any contents of the worker's array, nothing is lost, duplicated
      or reordered, and no ring or buffer overflows. */
  lemma {:induction false} EveryRun(c: Config, s: State, actions: seq<Action>)
    requires Inv(c, s)
    ensures Inv(c, Run(c, s, actions))
    decreases |actions|
  {
    hide Flow, Perform, Bounds, Enabled;
    if actions != [] {
      var a := actions[0];
      if Enabled(c, s, a) { PerformKeepsInv(c, s, a); }
      EveryRun(c, if Enabled(c, s, a) then Perform(c, s, a) else s, actions[1..]);
    }
  }

  /** What leaves at a port is, in order, the beginning of what came in at its partner; and the TX
      buffer never exceeds its array. */
  lemma OutputFollowsInput(c: Config, garbage: seq<Packet>, actions: seq<Action>, j: nat)
    requires c.Valid() && |garbage| == c.arraySize && j < c.ports
    requires Shape(c, Initial(c, garbage))
    ensures var s := Run(c, Initial(c, garbage), actions);
            && Shape(c, s) && Partner(j) < c.ports
            && Packets(s.gone[j]) <= s.received[Partner(j)]
            && |s.txBuffers[j]| <= c.arraySize
  {
    InitialInv(c, garbage);
    EveryRun(c, Initial(c, garbage), actions);
    PartnerBelow(c, j);
    assert Flow(c, Run(c, Initial(c, garbage), actions), Partner(j));
  }

  // ----- Bursts and turns -----

  /** A port is sent to in bursts of at least the size it is meant to get; of a burst it takes the
      first packets, as many as it will, and the rest are freed. */
  lemma SendsBursts(c: Config, s: State, a: Action)
    requires Inv(c, s) && Enabled(c, s, a) && (s.txFull ==> |s.txBuffers[s.txPort]| >= c.txWrite)
    ensures var s' := Perform(c, s, a);
            && Shape(c, s') && (s'.txFull ==> |s'.txBuffers[s'.txPort]| >= c.txWrite)
            && (!a.TxBurst? ==> s'.gone == s.gone)
            && (a.TxBurst? ==>
                  var before, after := s.gone[s.txPort], s'.gone[s.txPort];
                  && |after| >= |before| + c.txWrite && after[..|before|] == before
                  && (forall k :: |before| <= k < |after| ==> (after[k].Sent? <==> k < |before| + a.sent))
                  && forall j :: 0 <= j < c.ports && j != s.txPort ==> s'.gone[j] == s.gone[j])
  {
    PartnerBelow(c, s.workerPort);
  }

  /** Each core visits the ports in turn: it stays on a port while it holds a burst there, and goes on
      to the next one otherwise. */
  lemma InTurn(c: Config, s: State, a: Action)
    requires Inv(c, s) && Enabled(c, s, a)
    ensures var s' := Perform(c, s, a);
            && s'.rxPort == (if (a.RxBurst? || a.RxEnqueue?) && s'.rxHand == [] then (s.rxPort + 1) % c.ports else s.rxPort)
            && s'.workerPort == (if (a.WorkerDequeue? || a.WorkerEnqueue?) && !s'.workerBusy then (s.workerPort + 1) % c.ports else s.workerPort)
            && s'.txPort == (if (a.TxDequeue? || a.TxBurst?) && !s'.txFull then (s.txPort + 1) % c.ports else s.txPort)
  {
    PartnerBelow(c, s.workerPort);
  }

  // ----- Progress -----

  /** The rings have room for a burst on top of packets too few to be taken out. */
  predicate Roomy(c: Config) {
    c.rxRead + c.workerRead - 1 <= c.rxCapacity && c.workerWrite + c.txRead - 1 <= c.txCapacity
  }

  /** The invariant, and: RX holds no more than one burst, and what is due to be sent is a burst. */
  ghost predicate Bursts(c: Config, s: State) {
    Inv(c, s) && |s.rxHand| <= c.rxRead && (s.txFull ==> |s.txBuffers[s.txPort]| >= c.txWrite)
  }

  lemma BurstsStay(c: Config, s: State, a: Action)
    requires Bursts(c, s) && Enabled(c, s, a)
    ensures Bursts(c, Perform(c, s, a))
  {
    PerformKeepsInv(c, s, a);
    SendsBursts(c, s, a);
    HandStays(c, s, a);
    hide Perform, Flow, Bounds, Enabled;
  }

  lemma HandStays(c: Config, s: State, a: Action)
    requires Shape(c, s) && c.Valid() && Enabled(c, s, a) && |s.rxHand| <= c.rxRead
    ensures |Perform(c, s, a).rxHand| <= c.rxRead
  {
    PartnerBelow(c, s.workerPort);
  }

  /** The first list of at least n packets, or their number. */
  function FirstLong(rings: seq<seq<Packet>>, n: nat): (i: nat)
    ensures i <= |rings| && (i < |rings| ==> |rings[i]| >= n)
    ensures i == |rings| ==> forall k :: 0 <= k < |rings| ==> |rings[k]| < n
  {
    if rings == [] then 0 else if |rings[0]| >= n then 0 else 1 + FirstLong(rings[1..], n)
  }

  /** Nothing is left that a core could take further without more input. */
  ghost predicate Settled(c: Config, s: State) {
    && s.rxHand == [] && !s.workerBusy && !s.txFull
    && (forall i :: 0 <= i < |s.rxRings| ==> |s.rxRings[i]| < c.workerRead)
    && (forall i :: 0 <= i < |s.txRings| ==> |s.txRings[i]| < c.txRead)
  }

  /** An action that takes a settling pipeline further: downstream first. */
  function Next(c: Config, s: State): Action
    requires Shape(c, s) && !Settled(c, s)
  {
    if s.txFull then TxBurst(|s.txBuffers[s.txPort]|)
    else if FirstLong(s.txRings, c.txRead) < c.ports then TxDequeue
    else if s.workerBusy then WorkerEnqueue
    else if FirstLong(s.rxRings, c.workerRead) < c.ports then WorkerDequeue
    else RxEnqueue
  }

  function Sum(rings: seq<seq<Packet>>): nat {
    if rings == [] then 0 else |rings[0]| + Sum(rings[1..])
  }

  lemma {:induction false} SumUpdate(rings: seq<seq<Packet>>, i: nat, r: seq<Packet>)
    requires i < |rings|
    ensures Sum(rings[i := r]) == Sum(rings) - |rings[i]| + |r|
  {
    if i > 0 {
      SumUpdate(rings[1..], i - 1, r);
      assert rings[i := r][1..] == rings[1..][i - 1 := r];
    } else {
      assert rings[0 := r][1..] == rings[1..];
    }
  }

  /** How far the packets still have to go. */
  function Distance(c: Config, s: State): nat {
    5 * |s.rxHand| + 4 * Sum(s.rxRings) + (if s.workerBusy then 3 * c.workerWrite else 0) + 2 * Sum(s.txRings) + Sum(s.txBuffers)
  }

  /** How many ports there are from i on to j, in the order of the turns. */
  function Turns(c: Config, i: nat, j: nat): nat {
    if i <= j then j - i else if j + c.ports >= i then j + c.ports - i else 0
  }

  /** How long a core has to turn until it comes to a ring it can take from. */
  function Waiting(c: Config, s: State): nat {
    if FirstLong(s.txRings, c.txRead) < c.ports then Turns(c, s.txPort, FirstLong(s.txRings, c.txRead))
    else Turns(c, s.workerPort, FirstLong(s.rxRings, c.workerRead))
  }

  /** The packets come nearer to their port, or a core comes nearer to a ring to take from. */
  ghost predicate Nearer(c: Config, s: State, s': State) {
    && s'.received == s.received
    && (Distance(c, s') < Distance(c, s) || (Distance(c, s') == Distance(c, s) && Waiting(c, s') < Waiting(c, s)))
  }

  lemma SendIsNearer(c: Config, s: State)
    requires Bursts(c, s) && s.txFull
    ensures !Settled(c, s) && Enabled(c, s, Next(c, s)) && !Next(c, s).RxBurst?
    ensures Nearer(c, s, Perform(c, s, Next(c, s)))
  {
    hide Flow;
    SumUpdate(s.txBuffers, s.txPort, []);
  }

  lemma CollectIsNearer(c: Config, s: State)
    requires Bursts(c, s) && !s.txFull && FirstLong(s.txRings, c.txRead) < c.ports
    ensures !Settled(c, s) && Enabled(c, s, Next(c, s)) && !Next(c, s).RxBurst?
    ensures Nearer(c, s, Perform(c, s, Next(c, s)))
  {
    hide Flow, Bounds;
    var ring := s.txRings[s.txPort];
    if |ring| >= c.txRead {
      SumUpdate(s.txRings, s.txPort, ring[c.txRead..]);
      SumUpdate(s.txBuffers, s.txPort, s.txBuffers[s.txPort] + ring[..c.txRead]);
    } else {
      TurnsLess(c, s.txPort, FirstLong(s.txRings, c.txRead));
    }
  }

  lemma WorkerIsNearer(c: Config, s: State)
    requires Bursts(c, s) && Roomy(c) && !s.txFull && FirstLong(s.txRings, c.txRead) == c.ports
    requires s.workerBusy || FirstLong(s.rxRings, c.workerRead) < c.ports
    ensures !Settled(c, s) && Enabled(c, s, Next(c, s)) && !Next(c, s).RxBurst?
    ensures Nearer(c, s, Perform(c, s, Next(c, s)))
  {
    hide Flow;
    PartnerBelow(c, s.workerPort);
    if s.workerBusy {
      var j := Partner(s.workerPort);
      SumUpdate(s.txRings, j, s.txRings[j] + s.workerArray[..c.workerWrite]);
    } else {
      var ring := s.rxRings[s.workerPort];
      if |ring| >= c.workerRead {
        SumUpdate(s.rxRings, s.workerPort, ring[c.workerRead..]);
      } else {
        TurnsLess(c, s.workerPort, FirstLong(s.rxRings, c.workerRead));
      }
    }
  }

  lemma RxIsNearer(c: Config, s: State)
    requires Bursts(c, s) && Roomy(c) && !s.txFull && FirstLong(s.txRings, c.txRead) == c.ports
    requires !s.workerBusy && FirstLong(s.rxRings, c.workerRead) == c.ports && s.rxHand != []
    ensures !Settled(c, s) && Enabled(c, s, Next(c, s)) && !Next(c, s).RxBurst?
    ensures Nearer(c, s, Perform(c, s, Next(c, s)))
  {
    hide Flow;
    SumUpdate(s.rxRings, s.rxPort, s.rxRings[s.rxPort] + s.rxHand);
  }

  lemma NextIsNearer(c: Config, s: State)
    requires Bursts(c, s) && Roomy(c) && !Settled(c, s)
    ensures Enabled(c, s, Next(c, s)) && !Next(c, s).RxBurst?
    ensures Nearer(c, s, Perform(c, s, Next(c, s)))
  {
    hide Flow, Perform, Next, Enabled, Nearer, Bounds;
    if s.txFull {
      SendIsNearer(c, s);
    } else if FirstLong(s.txRings, c.txRead) < c.ports {
      CollectIsNearer(c, s);
    } else if s.workerBusy || FirstLong(s.rxRings, c.workerRead) < c.ports {
      WorkerIsNearer(c, s);
    } else {
      RxIsNearer(c, s);
    }
  }

  lemma TurnsLess(c: Config, i: nat, j: nat)
    requires i < c.ports && j < c.ports && i != j
    ensures Turns(c, NextPort(c, i), j) < Turns(c, i, j)
  {
    if i + 1 < c.ports { assert NextPort(c, i) == i + 1; }
  }

  /** All packets received on a port are out at its partner, in order, but for fewer than make a burst
      in each of the two rings and in the buffer. */
  ghost predicate GotOut(c: Config, s: State) {
    && Shape(c, s)
    && forall i :: 0 <= i < c.ports ==>
         && Partner(i) < c.ports
         && Packets(s.gone[Partner(i)]) <= s.received[i]
         && |s.received[i]| <= |s.gone[Partner(i)]| + (c.txWrite - 1) + (c.txRead - 1) + (c.workerRead - 1)
  }

  /** From every such state some run without further input settles the pipeline. */
  lemma {:induction false} Progress(c: Config, s: State) returns (more: seq<Action>)
    requires Bursts(c, s) && Roomy(c)
    ensures forall a :: a in more ==> !a.RxBurst?
    ensures Run(c, s, more).received == s.received && GotOut(c, Run(c, s, more))
    decreases Distance(c, s), Waiting(c, s)
  {
    hide Flow, Distance, Waiting, Next, Perform, Enabled, Bounds, GotOut, Settled;
    if Settled(c, s) {
      more := [];
      SettledIsOut(c, s);
    } else {
      var a := Next(c, s);
      NextIsNearer(c, s);
      BurstsStay(c, s, a);
      var rest := Progress(c, Perform(c, s, a));
      more := [a] + rest;
      assert more[1..] == rest;
    }
  }

  /** Whatever the cores have done so far, they can go on so that every full burst gets out. */
  lemma EveryBurstGetsOut(c: Config, garbage: seq<Packet>, actions: seq<Action>) returns (more: seq<Action>)
    requires c.Valid() && Roomy(c) && |garbage| == c.arraySize && Shape(c, Initial(c, garbage))
    ensures forall a :: a in more ==> !a.RxBurst?
    ensures var s := Run(c, Initial(c, garbage), actions);
            && Shape(c, s) && Run(c, s, more).received == s.received && GotOut(c, Run(c, s, more))
  {
    hide GotOut, Run;
    InitialInv(c, garbage);
    Reachable(c, Initial(c, garbage), actions);
    more := Progress(c, Run(c, Initial(c, garbage), actions));
  }

  lemma SettledIsOut(c: Config, s: State)
    requires Inv(c, s) && Settled(c, s)
    ensures GotOut(c, s)
  {
    forall i | 0 <= i < c.ports
      ensures Partner(i) < c.ports && Packets(s.gone[Partner(i)]) <= s.received[i]
      ensures |s.received[i]| <= |s.gone[Partner(i)]| + (c.txWrite - 1) + (c.txRead - 1) + (c.workerRead - 1)
    {
      PartnerBelow(c, i);
      assert Flow(c, s, i);
    }
  }

  /** The runs from the start lead only to states of that kind. */
  lemma {:induction false} Reachable(c: Config, s: State, actions: seq<Action>)
    requires Bursts(c, s)
    ensures Bursts(c, Run(c, s, actions))
    decreases |actions|
  {
    hide Flow, Perform, Bounds, Enabled;
    if actions != [] {
      var a := actions[0];
      if Enabled(c, s, a) { BurstsStay(c, s, a); }
      Reachable(c, if Enabled(c, s, a) then Perform(c, s, a) else s, actions[1..]);
    }
  }

  /** A ring that is too small for what RX holds, on top of packets the worker does not take, stops RX
      for good. */
  lemma {:induction false} Stuck(c: Config, s: State, actions: seq<Action>)
    requires Inv(c, s) && s.rxHand != [] && !(s.workerBusy && s.workerPort == s.rxPort)
    requires |s.rxRings[s.rxPort]| < c.workerRead && |s.rxRings[s.rxPort]| + |s.rxHand| > c.rxCapacity
    ensures var last := Run(c, s, actions); last.rxHand == s.rxHand && last.received == s.received
    decreases |actions|
  {
    hide Flow;
    if actions != [] {
      var a := actions[0];
      PartnerBelow(c, s.workerPort);
      if Enabled(c, s, a) { PerformKeepsInv(c, s, a); }
      Stuck(c, if Enabled(c, s, a) then Perform(c, s, a) else s, actions[1..]);
    }
  }

  /** That happens with bursts of two and a ring for two: one packet waits for a second one. */
  lemma StuckExample(actions: seq<Action>)
    ensures var c := Config(2, 2, 2, 2, 1, 1, 2, 2, 2);
            && c.Valid() && !Roomy(c) && Shape(c, Initial(c, [0, 0]))
            && var s := Run(c, Initial(c, [0, 0]), [RxBurst([7]), RxEnqueue, RxBurst([]), RxBurst([8, 9])]);
               Shape(c, s) && Run(c, s, actions).rxHand == [8, 9]
  {
    var c := Config(2, 2, 2, 2, 1, 1, 2, 2, 2);
    var none: seq<seq<Packet>> := [[], []];
    var s0 := Initial(c, [0, 0]);
    InitialInv(c, [0, 0]);
    assert s0.rxRings == none && s0.received == none;
    var s1 := s0.(rxHand := [7], received := s0.received[0 := s0.received[0] + [7]]);
    var s2 := s1.(rxHand := [], rxRings := s1.rxRings[0 := s1.rxRings[0] + [7]], rxPort := 1);
    var s3 := s2.(rxPort := 0);
    var s4 := s3.(rxHand := [8, 9], received := s3.received[0 := s3.received[0] + [8, 9]]);
    assert Enabled(c, s0, RxBurst([7])) && Perform(c, s0, RxBurst([7])) == s1;
    assert Enabled(c, s1, RxEnqueue) && Perform(c, s1, RxEnqueue) == s2;
    assert Enabled(c, s2, RxBurst([])) && Perform(c, s2, RxBurst([])) == s3;
    assert Enabled(c, s3, RxBurst([8, 9])) && Perform(c, s3, RxBurst([8, 9])) == s4;
    hide Perform, Enabled;
    RunOne(c, s3, RxBurst([8, 9]), []);
    RunOne(c, s2, RxBurst([]), [RxBurst([8, 9])]);
    RunOne(c, s1, RxEnqueue, [RxBurst([]), RxBurst([8, 9])]);
    RunOne(c, s0, RxBurst([7]), [RxEnqueue, RxBurst([]), RxBurst([8, 9])]);
    EveryRun(c, s0, [RxBurst([7]), RxEnqueue, RxBurst([]), RxBurst([8, 9])]);
    Stuck(c, s4, actions);
  }

  lemma RunOne(c: Config, s: State, a: Action, rest: seq<Action>)
    requires Shape(c, s) && c.Valid() && Enabled(c, s, a)
    ensures Shape(c, Perform(c, s, a)) && Run(c, s, [a] + rest) == Run(c, Perform(c, s, a), rest)
    ensures Run(c, Perform(c, s, a), []) == Perform(c, s, a)
  {
    KeepsShape(c, s, a);
    hide Perform, Enabled;
    assert ([a] + rest)[1..] == rest;
  }
}
