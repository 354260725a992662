/** The ready-socket queues of stack_and_service/porting/app_glue.c. */
module AppGlue {

  /** The fields of `struct socket` (and its `sock`) that the glue looks at. */
  class Socket {
    const stream: bool            // type == SOCK_STREAM
    var readPresent: bool
    var writePresent: bool
    var acceptPresent: bool
    var closedPresent: bool
    var noSpace: bool             // SOCK_NOSPACE
    var refs: nat                 // sock_hold calls of the glue minus its sock_put calls

    constructor (stream: bool)
      ensures this.stream == stream && refs == 0 && !noSpace
      ensures !readPresent && !writePresent && !acceptPresent && !closedPresent
    {
      this.stream := stream;
      readPresent, writePresent, acceptPresent, closedPresent := false, false, false, false;
      noSpace, refs := false, 0;
    }

    /** On how many of the four lists the socket's flags say it is. */
    function Lists(): nat
      reads `readPresent, `writePresent, `acceptPresent, `closedPresent
    {
      (if readPresent then 1 else 0) + (if writePresent then 1 else 0)
      + (if acceptPresent then 1 else 0) + (if closedPresent then 1 else 0)
    }
  }

  /** A callback of the stack: the socket of the `sock` it is about (null if it has none), and the
      connection state the callback looks at. */
  datatype Event =
    | Readable(s: Socket?, established: bool)
    | WriteSpace(s: Socket?, established: bool, writeable: bool)
    | ErrorReport(s: Socket?)
    | Wakeup(s: Socket?, listener: Socket?, established: bool, writeable: bool)

  /** What user code may do with the glue, between drains or from within one.  The events of a
      close are the ones the stack raises while pending connections are accepted and dropped. */
  datatype Action =
    | Raise(event: Event)
    | NextReader | NextWriter | NextListener | NextClosed
    | Close(socket: Socket, raised: seq<Event>)

  datatype Queue = ReadQueue | WriteQueue | AcceptQueue | ClosedQueue

  /** sk_state is TCP_ESTABLISHED or the socket is not a stream. */
  predicate Ready(s: Socket, established: bool) { established || !s.stream }

  /** The socket an event puts on a queue if it is not there yet. */
  function Target(k: Queue, e: Event): Socket? {
    match e
    case Readable(s, est) => if k == ReadQueue && s != null && Ready(s, est) then s else null
    case WriteSpace(s, est, wr) => if k == WriteQueue && s != null && Ready(s, est) && wr then s else null
    case ErrorReport(s) => if k == ClosedQueue then s else null
    case Wakeup(s, listener, est, wr) =>
      if listener != null then (if k == AcceptQueue then listener else null)
      else if k == WriteQueue && s != null && Ready(s, est) && wr then s else null
  }

  /** TAILQ_INSERT_TAIL of a socket that is not queued yet. */
  function Arrive(q: seq<Socket>, t: Socket?): (r: seq<Socket>)
    ensures q <= r
  {
    if t == null || t in q then q else q + [t]
  }

  function ArriveAll(q: seq<Socket>, k: Queue, events: seq<Event>): (r: seq<Socket>)
    ensures q <= r
    decreases |events|
  {
    if events == [] then q else ArriveAll(Arrive(q, Target(k, events[0])), k, events[1..])
  }

  ghost predicate NoDup(q: seq<Socket>) {
    forall i, j :: 0 <= i < j < |q| ==> q[i] != q[j]
  }

  lemma TailMembers(q: seq<Socket>)
    requires NoDup(q) && q != []
    ensures NoDup(q[1..]) && (forall x | x in q :: x in q[1..] <==> x != q[0]) && (forall x | x in q[1..] :: x in q)
  {
    forall x | x in q && x != q[0] ensures x in q[1..] {
      var i :| 0 <= i < |q| && q[i] == x;
      assert q[1..][i - 1] == x;
    }
  }

  lemma NoDupSnoc(q: seq<Socket>, s: Socket)
    requires NoDup(q) && s !in q
    ensures NoDup(q + [s])
  {
  }

  /** TAILQ_REMOVE */
  function Without(q: seq<Socket>, s: Socket): (r: seq<Socket>)
    ensures (forall x | x in q :: x in r <==> x != s) && (forall x | x in r :: x in q && x != s)
    ensures |r| <= |q| && (s in q ==> |r| < |q|)
  {
    if q == [] then [] else if q[0] == s then Without(q[1..], s) else [q[0]] + Without(q[1..], s)
  }

  lemma {:induction false} WithoutNoDup(q: seq<Socket>, s: Socket)
    requires NoDup(q)
    ensures NoDup(Without(q, s)) && |Without(q, s)| == |q| - if s in q then 1 else 0
    ensures s !in q ==> Without(q, s) == q
  {
    if q != [] {
      var rest := q[1..];
      assert forall j :: 0 <= j < |rest| ==> rest[j] == q[j + 1];
      WithoutNoDup(rest, s);
      assert q[0] !in rest;
    }
  }

  // ----- The queues as values -----

  /** The four lists, how many calls of `app_glue_get_next_reader` and `app_glue_get_next_writer` have
      handed out a socket, and the references of lists that nobody has dropped. */
  datatype Queues = Queues(read: seq<Socket>, write: seq<Socket>, accept: seq<Socket>, closed: seq<Socket>,
                           readGets: nat, writeGets: nat, kept: multiset<Socket>) {
    function Get(k: Queue): seq<Socket> {
      match k
      case ReadQueue => read
      case WriteQueue => write
      case AcceptQueue => accept
      case ClosedQueue => closed
    }

    function With(k: Queue, q: seq<Socket>): Queues {
      match k
      case ReadQueue => this.(read := q)
      case WriteQueue => this.(write := q)
      case AcceptQueue => this.(accept := q)
      case ClosedQueue => this.(closed := q)
    }

    function Tail(k: Queue): Queues {
      if Get(k) == [] then this else With(k, Get(k)[1..])
    }

    /** Every queue gains the targets of the events, in order. */
    function Gain(events: seq<Event>): Queues {
      this.(read := ArriveAll(read, ReadQueue, events), write := ArriveAll(write, WriteQueue, events),
            accept := ArriveAll(accept, AcceptQueue, events), closed := ArriveAll(closed, ClosedQueue, events))
    }

    /** A socket leaves a list it may be on; the list's reference stays behind. */
    function Leave(k: Queue, s: Socket): Queues {
      With(k, Without(Get(k), s)).(kept := kept[s := kept[s] + One(s in Get(k))])
    }

    /** The first socket is handed out; the reference and the count of its list stay behind. */
    function HandOut(k: Queue): Queues {
      if Get(k) == [] then this
      else
        var s := Get(k)[0];
        Tail(k).(readGets := if k == ReadQueue then readGets + 1 else readGets,
                 writeGets := if k == WriteQueue then writeGets + 1 else writeGets,
                 kept := kept[s := kept[s] + 1])
    }
  }

  function One(b: bool): nat {
    if b then 1 else 0
  }

  /** What one action does to the queues.  A close takes the socket off the read and write lists,
      lets the stack raise events if connections were pending, and then takes it off the others;
      the references of the lists it was on stay behind. */
  function Apply(qs: Queues, a: Action): Queues {
    match a
    case Raise(e) => qs.Gain([e])
    case NextReader => qs.HandOut(ReadQueue)
    case NextWriter => qs.HandOut(WriteQueue)
    case NextListener => qs.HandOut(AcceptQueue)
    case NextClosed => qs.HandOut(ClosedQueue)
    case Close(s, raised) =>
      var q := qs.Leave(ReadQueue, s).Leave(WriteQueue, s);
      q.Gain(if s in qs.accept then raised else []).Leave(AcceptQueue, s).Leave(ClosedQueue, s)
  }

  function ApplyAll(qs: Queues, actions: seq<Action>): Queues
    decreases |actions|
  {
    if actions == [] then qs else ApplyAll(Apply(qs, actions[0]), actions[1..])
  }

  /** The i-th callback of a drain; the callbacks past the script do nothing. */
  function At(callbacks: seq<seq<Action>>, i: nat): seq<Action> {
    if i < |callbacks| then callbacks[i] else []
  }

  /** A bounded drain of queue k from callback i on: which sockets are served, and what the queues
      hold afterwards.  A socket is taken off the list before its callback runs. */
  function Drain(qs: Queues, k: Queue, callbacks: seq<seq<Action>>, i: nat, limit: nat): (r: (seq<Socket>, Queues))
    decreases limit
  {
    if limit == 0 || qs.Get(k) == [] then ([], qs)
    else
      var (served, last) := Drain(ApplyAll(qs.Tail(k), At(callbacks, i)), k, callbacks, i + 1, limit - 1);
      ([qs.Get(k)[0]] + served, last)
  }

  /** The unbounded drain of the closed list.  Here the callback runs first; the result is false if
      it has taken its own socket off the list, so that the removal that follows goes wrong.  The last
      component is the sockets the callback has been called for. */
  function DrainClosedQueue(qs: Queues, steps: seq<(seq<Action>, seq<Action>)>): (r: (bool, Queues, seq<Socket>))
    decreases |steps|, |qs.closed|
  {
    if qs.closed == [] then (true, qs, [])
    else
      var s := qs.closed[0];
      var (callback, closing) := if steps == [] then ([], []) else steps[0];
      var called := ApplyAll(qs, callback);
      if s !in called.closed then (false, called, [s])
      else
        var r := DrainClosedQueue(ApplyAll(called.(closed := Without(called.closed, s)), closing), if steps == [] then [] else steps[1..]);
        (r.0, r.1, [s] + r.2)
  }

  /** The same for the accept list, where nothing follows the removal. */
  function DrainAcceptQueue(qs: Queues, callbacks: seq<seq<Action>>): (r: (bool, Queues, seq<Socket>))
    decreases |callbacks|, |qs.accept|
  {
    if qs.accept == [] then (true, qs, [])
    else
      var s := qs.accept[0];
      var called := ApplyAll(qs, At(callbacks, 0));
      if s !in called.accept then (false, called, [s])
      else
        var r := DrainAcceptQueue(called.(accept := Without(called.accept, s)), if callbacks == [] then [] else callbacks[1..]);
        (r.0, r.1, [s] + r.2)
  }

  /** The sockets an operation calls the user for: the fatal ones, the listeners, and those served. */
  datatype Service = Service(closed: seq<Socket>, accepted: seq<Socket>, served: seq<Socket>)

  /** `process_rx_ready_sockets`: false if a removal of one of the first two loops goes wrong. */
  function DrainRx(qs: Queues, steps: seq<(seq<Action>, seq<Action>)>, accepts: seq<seq<Action>>, readers: seq<seq<Action>>)
    : (r: (bool, Queues, Service))
  {
    var closed := DrainClosedQueue(qs, steps);
    if !closed.0 then (false, closed.1, Service(closed.2, [], []))
    else
      var accepted := DrainAcceptQueue(closed.1, accepts);
      if !accepted.0 then (false, accepted.1, Service(closed.2, accepted.2, []))
      else
        var read := Drain(accepted.1, ReadQueue, readers, 0, |accepted.1.read| + accepted.1.readGets);
        (true, read.1, Service(closed.2, accepted.2, read.0))
  }

  predicate EventsOnly(actions: seq<Action>) {
    forall a :: a in actions ==> a.Raise?
  }

  predicate EventsOnlyAll(callbacks: seq<seq<Action>>) {
    forall c :: c in callbacks ==> EventsOnly(c)
  }

  ghost function Held(held: Socket?): multiset<Socket> {
    if held == null then multiset{} else multiset([held])
  }

  class Glue {
    var readQ: seq<Socket>
    var writeQ: seq<Socket>
    var acceptQ: seq<Socket>
    var closedQ: seq<Socket>
    var readLen: nat              // read_sockets_queue_len
    var writeLen: nat             // write_sockets_queue_len
    ghost var readGets: nat       // calls of app_glue_get_next_reader that handed out a socket
    ghost var writeGets: nat      // the same for app_glue_get_next_writer
    ghost var kept: multiset<Socket> // references of lists that nobody has dropped
    ghost const sockets: set<Socket>

    // A socket is on a list, once, exactly when its flag says so.

    ghost predicate ReadMatches()
      reads `readQ, sockets`readPresent
    {
      NoDup(readQ) && (forall s | s in readQ :: s in sockets) && (forall s :: s in sockets ==> (s.readPresent <==> s in readQ))
    }

    ghost predicate WriteMatches()
      reads `writeQ, sockets`writePresent
    {
      NoDup(writeQ) && (forall s | s in writeQ :: s in sockets) && (forall s :: s in sockets ==> (s.writePresent <==> s in writeQ))
    }

    ghost predicate AcceptMatches()
      reads `acceptQ, sockets`acceptPresent
    {
      NoDup(acceptQ) && (forall s | s in acceptQ :: s in sockets) && (forall s :: s in sockets ==> (s.acceptPresent <==> s in acceptQ))
    }

    ghost predicate ClosedMatches()
      reads `closedQ, sockets`closedPresent
    {
      NoDup(closedQ) && (forall s | s in closedQ :: s in sockets) && (forall s :: s in sockets ==> (s.closedPresent <==> s in closedQ))
    }

    /** Every reference is that of a list, one that stayed behind, or one still to be dropped. */
    ghost predicate Accounted(extra: multiset<Socket>)
      reads `kept, sockets`refs, sockets`readPresent, sockets`writePresent, sockets`acceptPresent, sockets`closedPresent
    {
      forall s :: s in sockets ==> s.refs == s.Lists() + kept[s] + extra[s]
    }

    /** The invariant, with an exact account of counters and references.  r and w count sockets
        being served by a read or write drain, which the length counters still include; `held` is
        the socket being served, on which the list's reference has not been dropped yet. */
    ghost predicate Valid(r: nat, w: nat, held: Socket?)
      reads this, sockets
    {
      && ReadMatches() && WriteMatches() && AcceptMatches() && ClosedMatches()
      && readLen == |readQ| + r + readGets && writeLen == |writeQ| + w + writeGets
      && Accounted(Held(held))
    }

    ghost function Now(): Queues
      reads this
    {
      Queues(readQ, writeQ, acceptQ, closedQ, readGets, writeGets, kept)
    }

    /** By how much the counters exceed the lists. */
    ghost function ReadSlack(): int
      reads this
    {
      readLen - |readQ|
    }

    ghost function WriteSlack(): int
      reads this
    {
      writeLen - |writeQ|
    }

    ghost predicate Knows(e: Event) {
      && (e.s == null || e.s in sockets)
      && (e.Wakeup? ==> e.listener == null || e.listener in sockets)
    }

    ghost predicate KnowsAll(events: seq<Event>) {
      forall e :: e in events ==> Knows(e)
    }

    constructor (ghost universe: set<Socket>)
      requires forall s :: s in universe ==> s.Lists() == 0 && s.refs == 0
      ensures sockets == universe && Valid(0, 0, null) && readLen == writeLen == 0
      ensures Now() == Queues([], [], [], [], 0, 0, multiset{})
    {
      readQ, writeQ, acceptQ, closedQ := [], [], [], [];
      readLen, writeLen := 0, 0;
      readGets, writeGets, kept := 0, 0, multiset{};
      sockets := universe;
    }

    /** The references the glue holds: one for each list a socket is on, and those that were left
        behind when it was handed out or closed. */
    lemma References(s: Socket)
      requires Valid(0, 0, null) && s in sockets
      ensures s.refs == s.Lists() + kept[s]
    {
    }

    // ----- Joining a list: sock_hold, present flag, TAILQ_INSERT_TAIL, counter -----

    method JoinRead(s: Socket, ghost r: nat, ghost w: nat, ghost held: Socket?)
      requires Valid(r, w, held) && s in sockets && !s.readPresent
      modifies this`readQ, this`readLen, s`readPresent, s`refs
      ensures Valid(r, w, held) && readQ == old(readQ) + [s] && s !in old(readQ)
    {
      hide WriteMatches, AcceptMatches, ClosedMatches, NoDup, Held;
      NoDupSnoc(readQ, s);
      s.refs := s.refs + 1;
      s.readPresent := true;
      readQ := readQ + [s];
      readLen := readLen + 1;
    }

    method JoinWrite(s: Socket, ghost r: nat, ghost w: nat, ghost held: Socket?)
      requires Valid(r, w, held) && s in sockets && !s.writePresent
      modifies this`writeQ, this`writeLen, s`writePresent, s`refs
      ensures Valid(r, w, held) && writeQ == old(writeQ) + [s] && s !in old(writeQ)
    {
      hide ReadMatches, AcceptMatches, ClosedMatches, NoDup, Held;
      NoDupSnoc(writeQ, s);
      s.refs := s.refs + 1;
      s.writePresent := true;
      writeQ := writeQ + [s];
      writeLen := writeLen + 1;
    }

    method JoinAccept(s: Socket, ghost r: nat, ghost w: nat, ghost held: Socket?)
      requires Valid(r, w, held) && s in sockets && !s.acceptPresent
      modifies this`acceptQ, s`acceptPresent, s`refs
      ensures Valid(r, w, held) && acceptQ == old(acceptQ) + [s] && s !in old(acceptQ)
    {
      hide ReadMatches, WriteMatches, ClosedMatches, NoDup, Held;
      NoDupSnoc(acceptQ, s);
      s.refs := s.refs + 1;
      s.acceptPresent := true;
      acceptQ := acceptQ + [s];
    }

    method JoinClosed(s: Socket, ghost r: nat, ghost w: nat, ghost held: Socket?)
      requires Valid(r, w, held) && s in sockets && !s.closedPresent
      modifies this`closedQ, s`closedPresent, s`refs
      ensures Valid(r, w, held) && closedQ == old(closedQ) + [s] && s !in old(closedQ)
    {
      hide ReadMatches, WriteMatches, AcceptMatches, NoDup, Held;
      NoDupSnoc(closedQ, s);
      s.refs := s.refs + 1;
      s.closedPresent := true;
      closedQ := closedQ + [s];
    }

    // ----- Events -----

    /** `app_glue_sock_readable`; `fatal` says that it would call exit(0). */
    method SockReadable(s: Socket?, established: bool, ghost r: nat, ghost w: nat, ghost held: Socket?) returns (fatal: bool)
      requires Valid(r, w, held) && (s == null || s in sockets)
      modifies this`readQ, this`readLen, sockets
      ensures !fatal && Valid(r, w, held)
      ensures readQ == Arrive(old(readQ), Target(ReadQueue, Readable(s, established)))
      ensures ReadSlack() == old(ReadSlack())
    {
      fatal := false;
      if s == null { return; }
      if !established && s.stream { return; }
      if s.readPresent {
        fatal := readLen == 0;
        return;
      }
      JoinRead(s, r, w, held);
    }

    /** `app_glue_sock_write_space` */
    method SockWriteSpace(s: Socket?, established: bool, writeable: bool, ghost r: nat, ghost w: nat, ghost held: Socket?)
      requires Valid(r, w, held) && (s == null || s in sockets)
      modifies this`writeQ, this`writeLen, sockets
      ensures Valid(r, w, held)
      ensures writeQ == Arrive(old(writeQ), Target(WriteQueue, WriteSpace(s, established, writeable)))
      ensures s != null && Ready(s, established) && writeable ==> !s.noSpace
      ensures WriteSlack() == old(WriteSlack())
    {
      if s == null { return; }
      if !established && s.stream { return; }
      if writeable {
        s.noSpace := false;
        if s.writePresent { return; }
        JoinWrite(s, r, w, held);
      }
    }

    /** `app_glue_sock_error_report` */
    method SockErrorReport(s: Socket?, ghost r: nat, ghost w: nat, ghost held: Socket?)
      requires Valid(r, w, held) && (s == null || s in sockets)
      modifies this`closedQ, sockets
      ensures Valid(r, w, held)
      ensures closedQ == Arrive(old(closedQ), s)
    {
      if s != null {
        if s.closedPresent { return; }
        JoinClosed(s, r, w, held);
      }
    }

    /** `app_glue_sock_wakeup` */
    method SockWakeup(s: Socket?, listener: Socket?, established: bool, writeable: bool,
                      ghost r: nat, ghost w: nat, ghost held: Socket?)
      requires Valid(r, w, held) && (s == null || s in sockets) && (listener == null || listener in sockets)
      modifies this`acceptQ, this`writeQ, this`writeLen, sockets
      ensures Valid(r, w, held)
      ensures acceptQ == Arrive(old(acceptQ), listener)
      ensures writeQ == Arrive(old(writeQ), Target(WriteQueue, Wakeup(s, listener, established, writeable)))
      ensures WriteSlack() == old(WriteSlack())
    {
      if listener != null {
        if listener.acceptPresent { return; }
        JoinAccept(listener, r, w, held);
      } else {
        SockWriteSpace(s, established, writeable, r, w, held);
      }
    }

    /** Any one event: every queue gains at most its target, at its tail. */
    method Handle(e: Event, ghost r: nat, ghost w: nat, ghost held: Socket?) returns (fatal: bool)
      requires Valid(r, w, held) && Knows(e)
      modifies this, sockets
      ensures !fatal && Valid(r, w, held) && Now() == old(Now()).Gain([e])
      ensures ReadSlack() == old(ReadSlack()) && WriteSlack() == old(WriteSlack())
    {
      hide Valid, Arrive, Target, Queues.Gain;
      fatal := false;
      GainOne(Now(), e);
      match e {
        case Readable(s, est) => fatal := SockReadable(s, est, r, w, held);
        case WriteSpace(s, est, wr) => SockWriteSpace(s, est, wr, r, w, held);
        case ErrorReport(s) => SockErrorReport(s, r, w, held);
        case Wakeup(s, listener, est, wr) => SockWakeup(s, listener, est, wr, r, w, held);
      }
    }

    /** Events in a row. */
    method HandleAll(events: seq<Event>, ghost r: nat, ghost w: nat, ghost held: Socket?) returns (fatal: bool)
      requires Valid(r, w, held) && KnowsAll(events)
      modifies this, sockets
      ensures !fatal && Valid(r, w, held) && Now() == old(Now()).Gain(events)
      ensures ReadSlack() == old(ReadSlack()) && WriteSlack() == old(WriteSlack())
      decreases |events|
    {
      hide Valid, Arrive, Target, Knows, Now, ArriveAll, Queues.Gain;
      fatal := false;
      GainStep(Now(), events);
      if events != [] {
        var f := Handle(events[0], r, w, held);
        fatal := HandleAll(events[1..], r, w, held);
        fatal := fatal || f;
      }
    }

    // ----- TAILQ_REMOVE with its flag, of the first socket and of any; the list's reference is left over -----

    method PopRead(s: Socket, ghost extra: multiset<Socket>)
      requires ReadMatches() && readQ != [] && s == readQ[0] && s in sockets && Accounted(extra)
      modifies `readQ, s`readPresent
      ensures ReadMatches() && readQ == old(readQ)[1..] && Accounted(extra + multiset([s]))
    {
      hide NoDup;
      TailMembers(readQ);
      s.readPresent := false;
      readQ := readQ[1..];
    }

    method DropRead(s: Socket, ghost extra: multiset<Socket>)
      requires ReadMatches() && s in readQ && s in sockets && Accounted(extra)
      modifies `readQ, s`readPresent
      ensures ReadMatches() && readQ == Without(old(readQ), s) && |readQ| == old(|readQ|) - 1 && Accounted(extra + multiset([s]))
    {
      hide NoDup, Without;
      WithoutNoDup(readQ, s);
      readQ := Without(readQ, s);
      s.readPresent := false;
    }

    method PopWrite(s: Socket, ghost extra: multiset<Socket>)
      requires WriteMatches() && writeQ != [] && s == writeQ[0] && s in sockets && Accounted(extra)
      modifies `writeQ, s`writePresent
      ensures WriteMatches() && writeQ == old(writeQ)[1..] && Accounted(extra + multiset([s]))
    {
      hide NoDup;
      TailMembers(writeQ);
      s.writePresent := false;
      writeQ := writeQ[1..];
    }

    method DropWrite(s: Socket, ghost extra: multiset<Socket>)
      requires WriteMatches() && s in writeQ && s in sockets && Accounted(extra)
      modifies `writeQ, s`writePresent
      ensures WriteMatches() && writeQ == Without(old(writeQ), s) && |writeQ| == old(|writeQ|) - 1 && Accounted(extra + multiset([s]))
    {
      hide NoDup, Without;
      WithoutNoDup(writeQ, s);
      writeQ := Without(writeQ, s);
      s.writePresent := false;
    }

    method PopAccept(s: Socket, ghost extra: multiset<Socket>)
      requires AcceptMatches() && acceptQ != [] && s == acceptQ[0] && s in sockets && Accounted(extra)
      modifies `acceptQ, s`acceptPresent
      ensures AcceptMatches() && acceptQ == old(acceptQ)[1..] && Accounted(extra + multiset([s]))
    {
      hide NoDup;
      TailMembers(acceptQ);
      s.acceptPresent := false;
      acceptQ := acceptQ[1..];
    }

    method DropAccept(s: Socket, ghost extra: multiset<Socket>)
      requires AcceptMatches() && s in acceptQ && s in sockets && Accounted(extra)
      modifies `acceptQ, s`acceptPresent
      ensures AcceptMatches() && acceptQ == Without(old(acceptQ), s) && |acceptQ| == old(|acceptQ|) - 1 && Accounted(extra + multiset([s]))
    {
      hide NoDup, Without;
      WithoutNoDup(acceptQ, s);
      acceptQ := Without(acceptQ, s);
      s.acceptPresent := false;
    }

    method PopClosed(s: Socket, ghost extra: multiset<Socket>)
      requires ClosedMatches() && closedQ != [] && s == closedQ[0] && s in sockets && Accounted(extra)
      modifies `closedQ, s`closedPresent
      ensures ClosedMatches() && closedQ == old(closedQ)[1..] && Accounted(extra + multiset([s]))
    {
      hide NoDup;
      TailMembers(closedQ);
      s.closedPresent := false;
      closedQ := closedQ[1..];
    }

    method DropClosed(s: Socket, ghost extra: multiset<Socket>)
      requires ClosedMatches() && s in closedQ && s in sockets && Accounted(extra)
      modifies `closedQ, s`closedPresent
      ensures ClosedMatches() && closedQ == Without(old(closedQ), s) && |closedQ| == old(|closedQ|) - 1 && Accounted(extra + multiset([s]))
    {
      hide NoDup, Without;
      WithoutNoDup(closedQ, s);
      closedQ := Without(closedQ, s);
      s.closedPresent := false;
    }

    /** Nobody drops the reference. */
    ghost method Strand(s: Socket, extra: multiset<Socket>)
      requires s in sockets && Accounted(extra + multiset([s]))
      modifies `kept
      ensures Accounted(extra) && kept == old(kept)[s := old(kept)[s] + 1]
    {
      kept := kept[s := kept[s] + 1];
    }

    /** sock_put */
    method Release(s: Socket, ghost extra: multiset<Socket>)
      requires s in sockets && Accounted(extra + multiset([s]))
      modifies s`refs
      ensures Accounted(extra) && s.refs == old(s.refs) - 1
    {
      s.refs := s.refs - 1;
    }

    // ----- What user code calls -----

    /** `app_glue_get_next_reader`: takes the first socket off the list; neither the counter nor the
        list's reference is given back. */
    method GetNextReader(ghost r: nat, ghost w: nat, ghost held: Socket?) returns (s: Socket?)
      requires Valid(r, w, held)
      modifies this`readQ, this`kept, this`readGets, sockets
      ensures Valid(r, w, held) && Now() == old(Now()).HandOut(ReadQueue)
      ensures if old(readQ) == [] then s == null else s == old(readQ)[0]
      ensures ReadSlack() == old(ReadSlack()) + One(old(readQ) != [])
    {
      hide ReadMatches, WriteMatches, AcceptMatches, ClosedMatches, Accounted, Without, Held;
      s := null;
      if readQ != [] {
        s := readQ[0];
        ReadKnown(s);
        PopRead(s, Held(held));
        Strand(s, Held(held));
        readGets := readGets + 1;
      }
    }

    /** `app_glue_get_next_writer` */
    method GetNextWriter(ghost r: nat, ghost w: nat, ghost held: Socket?) returns (s: Socket?)
      requires Valid(r, w, held)
      modifies this`writeQ, this`kept, this`writeGets, sockets
      ensures Valid(r, w, held) && Now() == old(Now()).HandOut(WriteQueue)
      ensures if old(writeQ) == [] then s == null else s == old(writeQ)[0]
      ensures WriteSlack() == old(WriteSlack()) + One(old(writeQ) != [])
    {
      hide ReadMatches, WriteMatches, AcceptMatches, ClosedMatches, Accounted, Without, Held;
      s := null;
      if writeQ != [] {
        s := writeQ[0];
        WriteKnown(s);
        PopWrite(s, Held(held));
        Strand(s, Held(held));
        writeGets := writeGets + 1;
      }
    }

    /** `app_glue_get_next_listener` */
    method GetNextListener(ghost r: nat, ghost w: nat, ghost held: Socket?) returns (s: Socket?)
      requires Valid(r, w, held)
      modifies this`acceptQ, this`kept, sockets
      ensures Valid(r, w, held) && Now() == old(Now()).HandOut(AcceptQueue)
      ensures if old(acceptQ) == [] then s == null else s == old(acceptQ)[0]
    {
      hide ReadMatches, WriteMatches, AcceptMatches, ClosedMatches, Accounted, Without, Held;
      s := null;
      if acceptQ != [] {
        s := acceptQ[0];
        AcceptKnown(s);
        PopAccept(s, Held(held));
        Strand(s, Held(held));
      }
    }

    /** `app_glue_get_next_closed` */
    method GetNextClosed(ghost r: nat, ghost w: nat, ghost held: Socket?) returns (s: Socket?)
      requires Valid(r, w, held)
      modifies this`closedQ, this`kept, sockets
      ensures Valid(r, w, held) && Now() == old(Now()).HandOut(ClosedQueue)
      ensures if old(closedQ) == [] then s == null else s == old(closedQ)[0]
    {
      hide ReadMatches, WriteMatches, AcceptMatches, ClosedMatches, Accounted, Without, Held;
      s := null;
      if closedQ != [] {
        s := closedQ[0];
        ClosedKnown(s);
        PopClosed(s, Held(held));
        Strand(s, Held(held));
      }
    }

    /** One list of `app_glue_close_socket`. */
    method LeaveRead(s: Socket, ghost r: nat, ghost w: nat, ghost held: Socket?)
      requires Valid(r, w, held) && s in sockets
      modifies this`readQ, this`readLen, this`kept, s`readPresent
      ensures Valid(r, w, held) && Now() == old(Now()).Leave(ReadQueue, s)
    {
      ReadFlag(s, r, w, held);
      LeaveCases(Now(), ReadQueue, s);
      hide Valid, Without, Queues.Leave, NoDup;
      if s.readPresent {
        TakeOffRead(s, r, w, held);
      }
    }

    method TakeOffRead(s: Socket, ghost r: nat, ghost w: nat, ghost held: Socket?)
      requires Valid(r, w, held) && s in sockets && s in readQ
      modifies this`readQ, this`readLen, this`kept, s`readPresent
      ensures Valid(r, w, held)
      ensures Now() == old(Now()).(read := Without(old(readQ), s), kept := old(kept)[s := old(kept)[s] + 1])
    {
      hide ReadMatches, WriteMatches, AcceptMatches, ClosedMatches, Accounted, Without, Held;
      DropRead(s, Held(held));
      Strand(s, Held(held));
      readLen := readLen - 1;
    }

    lemma ReadKnown(s: Socket)
      requires ReadMatches() && s in readQ
      ensures s in sockets
    {
    }

    lemma ReadFlag(s: Socket, r: nat, w: nat, held: Socket?)
      requires Valid(r, w, held) && s in sockets
      ensures NoDup(readQ) && (s.readPresent <==> s in readQ)
    {
    }

    method LeaveWrite(s: Socket, ghost r: nat, ghost w: nat, ghost held: Socket?)
      requires Valid(r, w, held) && s in sockets
      modifies this`writeQ, this`writeLen, this`kept, s`writePresent
      ensures Valid(r, w, held) && Now() == old(Now()).Leave(WriteQueue, s)
    {
      WriteFlag(s, r, w, held);
      LeaveCases(Now(), WriteQueue, s);
      hide Valid, Without, Queues.Leave, NoDup;
      if s.writePresent {
        TakeOffWrite(s, r, w, held);
      }
    }

    method TakeOffWrite(s: Socket, ghost r: nat, ghost w: nat, ghost held: Socket?)
      requires Valid(r, w, held) && s in sockets && s in writeQ
      modifies this`writeQ, this`writeLen, this`kept, s`writePresent
      ensures Valid(r, w, held)
      ensures Now() == old(Now()).(write := Without(old(writeQ), s), kept := old(kept)[s := old(kept)[s] + 1])
    {
      hide ReadMatches, WriteMatches, AcceptMatches, ClosedMatches, Accounted, Without, Held;
      DropWrite(s, Held(held));
      Strand(s, Held(held));
      writeLen := writeLen - 1;
    }

    lemma WriteKnown(s: Socket)
      requires WriteMatches() && s in writeQ
      ensures s in sockets
    {
    }

    lemma WriteFlag(s: Socket, r: nat, w: nat, held: Socket?)
      requires Valid(r, w, held) && s in sockets
      ensures NoDup(writeQ) && (s.writePresent <==> s in writeQ)
    {
    }

    method LeaveAccept(s: Socket, ghost r: nat, ghost w: nat, ghost held: Socket?)
      requires Valid(r, w, held) && s in sockets
      modifies this`acceptQ, this`kept, s`acceptPresent
      ensures Valid(r, w, held) && Now() == old(Now()).Leave(AcceptQueue, s)
    {
      AcceptFlag(s, r, w, held);
      LeaveCases(Now(), AcceptQueue, s);
      hide Valid, Without, Queues.Leave, NoDup;
      if s.acceptPresent {
        TakeOffAccept(s, r, w, held);
      }
    }

    method TakeOffAccept(s: Socket, ghost r: nat, ghost w: nat, ghost held: Socket?)
      requires Valid(r, w, held) && s in sockets && s in acceptQ
      modifies this`acceptQ, this`kept, s`acceptPresent
      ensures Valid(r, w, held)
      ensures Now() == old(Now()).(accept := Without(old(acceptQ), s), kept := old(kept)[s := old(kept)[s] + 1])
    {
      hide ReadMatches, WriteMatches, AcceptMatches, ClosedMatches, Accounted, Without, Held;
      DropAccept(s, Held(held));
      Strand(s, Held(held));
    }

    lemma AcceptKnown(s: Socket)
      requires AcceptMatches() && s in acceptQ
      ensures s in sockets
    {
    }

    lemma AcceptFlag(s: Socket, r: nat, w: nat, held: Socket?)
      requires Valid(r, w, held) && s in sockets
      ensures NoDup(acceptQ) && (s.acceptPresent <==> s in acceptQ)
    {
    }

    method LeaveClosed(s: Socket, ghost r: nat, ghost w: nat, ghost held: Socket?)
      requires Valid(r, w, held) && s in sockets
      modifies this`closedQ, this`kept, s`closedPresent
      ensures Valid(r, w, held) && Now() == old(Now()).Leave(ClosedQueue, s)
    {
      ClosedFlag(s, r, w, held);
      LeaveCases(Now(), ClosedQueue, s);
      hide Valid, Without, Queues.Leave, NoDup;
      if s.closedPresent {
        TakeOffClosed(s, r, w, held);
      }
    }

    method TakeOffClosed(s: Socket, ghost r: nat, ghost w: nat, ghost held: Socket?)
      requires Valid(r, w, held) && s in sockets && s in closedQ
      modifies this`closedQ, this`kept, s`closedPresent
      ensures Valid(r, w, held)
      ensures Now() == old(Now()).(closed := Without(old(closedQ), s), kept := old(kept)[s := old(kept)[s] + 1])
    {
      hide ReadMatches, WriteMatches, AcceptMatches, ClosedMatches, Accounted, Without, Held;
      DropClosed(s, Held(held));
      Strand(s, Held(held));
    }

    lemma ClosedKnown(s: Socket)
      requires ClosedMatches() && s in closedQ
      ensures s in sockets
    {
    }

    lemma ClosedFlag(s: Socket, r: nat, w: nat, held: Socket?)
      requires Valid(r, w, held) && s in sockets
      ensures NoDup(closedQ) && (s.closedPresent <==> s in closedQ)
    {
    }

    /** `app_glue_close_socket`, up to the `kernel_close` at its end.  The events of pending connections
        come before the socket leaves the last two lists, and may put it back on the first two; the
        references of the lists it leaves stay behind. */
    method CloseSocket(s: Socket, raised: seq<Event>, ghost r: nat, ghost w: nat, ghost held: Socket?) returns (fatal: bool)
      requires Valid(r, w, held) && s in sockets && KnowsAll(raised)
      modifies this, sockets
      ensures !fatal && Valid(r, w, held) && Now() == Apply(old(Now()), Close(s, raised))
    {
      hide Valid, Queues.Gain, Queues.Leave, Knows;
      fatal := false;
      AcceptPending(s, r, w, held);
      LeaveRead(s, r, w, held);
      LeaveWrite(s, r, w, held);
      LeaveOnce(old(Now()), s);
      GainStep(Now(), []);
      if s.acceptPresent { fatal := HandleAll(raised, r, w, held); }
      LeaveAccept(s, r, w, held);
      LeaveClosed(s, r, w, held);
    }

    lemma LeaveCases(qs: Queues, k: Queue, s: Socket)
      requires NoDup(qs.Get(k))
      ensures s !in qs.Get(k) ==> qs.Leave(k, s) == qs
      ensures s in qs.Get(k) ==> qs.Leave(k, s) == qs.With(k, Without(qs.Get(k), s)).(kept := qs.kept[s := qs.kept[s] + 1])
    {
      WithoutNoDup(qs.Get(k), s);
    }

    lemma LeaveOnce(qs: Queues, s: Socket)
      ensures qs.Leave(ReadQueue, s).Leave(WriteQueue, s).accept == qs.accept
    {
    }

    lemma AcceptPending(s: Socket, r: nat, w: nat, held: Socket?)
      requires Valid(r, w, held) && s in sockets
      ensures s.acceptPresent <==> s in acceptQ
    {
    }

    ghost predicate KnowsAction(a: Action) {
      match a
      case Raise(e) => Knows(e)
      case Close(s, raised) => s in sockets && KnowsAll(raised)
      case _ => true
    }

    ghost predicate KnowsActions(actions: seq<Action>) {
      forall a :: a in actions ==> KnowsAction(a)
    }

    /** One action has the effect `Apply` on the queues and their account, and never reaches the exit. */
    method Act(a: Action, ghost r: nat, ghost w: nat, ghost held: Socket?) returns (fatal: bool)
      requires Valid(r, w, held) && KnowsAction(a)
      modifies this, sockets
      ensures !fatal && Valid(r, w, held) && Now() == Apply(old(Now()), a)
    {
      hide Valid, Arrive, Target, Without, ArriveAll, KnowsAll, Queues.Gain, Queues.HandOut;
      fatal := false;
      match a {
        case Raise(e) => fatal := Handle(e, r, w, held);
        case NextReader => var _ := GetNextReader(r, w, held);
        case NextWriter => var _ := GetNextWriter(r, w, held);
        case NextListener => var _ := GetNextListener(r, w, held);
        case NextClosed => var _ := GetNextClosed(r, w, held);
        case Close(s, raised) => fatal := CloseSocket(s, raised, r, w, held);
      }
    }

    method ActAll(actions: seq<Action>, ghost r: nat, ghost w: nat, ghost held: Socket?) returns (fatal: bool)
      requires Valid(r, w, held) && KnowsActions(actions)
      modifies this, sockets
      ensures !fatal && Valid(r, w, held) && Now() == ApplyAll(old(Now()), actions)
      decreases |actions|
    {
      hide Valid, Apply, KnowsAction, Now;
      fatal := false;
      if actions != [] {
        var f := Act(actions[0], r, w, held);
        fatal := ActAll(actions[1..], r, w, held);
        fatal := fatal || f;
      }
    }

    lemma KnowsAt(callbacks: seq<seq<Action>>, i: nat)
      requires forall c :: c in callbacks ==> KnowsActions(c)
      ensures KnowsActions(At(callbacks, i))
    {
    }

    // ----- Drains -----

    /** `process_tx_ready_sockets`, with one script of actions for each callback. */
    method ProcessTx(callbacks: seq<seq<Action>>) returns (served: seq<Socket>)
      requires Valid(0, 0, null) && forall c :: c in callbacks ==> KnowsActions(c)
      modifies this, sockets
      ensures Valid(0, 0, null)
      ensures (served, Now()) == Drain(old(Now()), WriteQueue, callbacks, 0, |old(writeQ)| + old(writeGets))
    {
      hide Valid, KnowsActions, ApplyAll, At, Drain;
      Counters();
      var idx, limit := 0, writeLen;
      served := [];
      ghost var all := Drain(Now(), WriteQueue, callbacks, 0, limit);
      assert all.0 == served + all.0;
      while idx < limit && writeQ != []
        invariant idx <= limit && Valid(0, 0, null)
        invariant var rest := Drain(Now(), WriteQueue, callbacks, idx, limit - idx);
                  all == (served + rest.0, rest.1)
      {
        KnowsAt(callbacks, idx);
        DrainStep(Now(), WriteQueue, callbacks, idx, limit - idx, served);
        var s := ServeWriter(At(callbacks, idx));
        served, idx := served + [s], idx + 1;
      }
      DrainStep(Now(), WriteQueue, callbacks, idx, limit - idx, served);
    }

    /** The counters at top level. */
    lemma Counters()
      requires Valid(0, 0, null)
      ensures readLen == |readQ| + readGets && writeLen == |writeQ| + writeGets
      ensures ReadSlack() == readGets && WriteSlack() == writeGets
    {
    }

    /** One pass of that loop: the callback runs between taking the socket off the list and
        dropping the list's reference and count. */
    method ServeWriter(callback: seq<Action>) returns (s: Socket)
      requires Valid(0, 0, null) && writeQ != [] && KnowsActions(callback)
      modifies this, sockets
      ensures Valid(0, 0, null) && s == old(writeQ)[0]
      ensures Now() == ApplyAll(old(Now()).Tail(WriteQueue), callback)
    {
      hide Valid, KnowsActions, ApplyAll;
      s := writeQ[0];
      FirstIsKnown(s);
      StartWrite(s);
      var _ := ActAll(callback, 0, 1, s);
      EndWrite(s);
    }

    /** TAILQ_REMOVE; sock->write_queue_present = 0; */
    method StartWrite(s: Socket)
      requires Valid(0, 0, null) && writeQ != [] && s == writeQ[0] && s in sockets
      modifies this`writeQ, s`writePresent
      ensures Valid(0, 1, s) && writeQ == old(writeQ)[1..]
    {
      hide ReadMatches, WriteMatches, AcceptMatches, ClosedMatches, Accounted;
      PopWrite(s, Held(null));
      assert Held(null) + multiset([s]) == Held(s);
    }

    /** set_bit(SOCK_NOSPACE); sock_put; write_sockets_queue_len--; */
    method EndWrite(s: Socket)
      requires Valid(0, 1, s) && s in sockets
      modifies this`writeLen, s`noSpace, s`refs
      ensures Valid(0, 0, null) && writeLen == old(writeLen) - 1 && s.noSpace && s.refs == old(s.refs) - 1
    {
      hide ReadMatches, WriteMatches, AcceptMatches, ClosedMatches, Accounted;
      s.noSpace := true;
      assert Held(null) + multiset([s]) == Held(s);
      Release(s, Held(null));
      writeLen := writeLen - 1;
    }

    method StartRead(s: Socket)
      requires Valid(0, 0, null) && readQ != [] && s == readQ[0] && s in sockets
      modifies this`readQ, s`readPresent
      ensures Valid(1, 0, s) && readQ == old(readQ)[1..]
    {
      hide ReadMatches, WriteMatches, AcceptMatches, ClosedMatches, Accounted;
      PopRead(s, Held(null));
      assert Held(null) + multiset([s]) == Held(s);
    }

    method EndRead(s: Socket)
      requires Valid(1, 0, s) && s in sockets
      modifies this`readLen, s`refs
      ensures Valid(0, 0, null) && readLen == old(readLen) - 1 && s.refs == old(s.refs) - 1
    {
      hide ReadMatches, WriteMatches, AcceptMatches, ClosedMatches, Accounted;
      assert Held(null) + multiset([s]) == Held(s);
      Release(s, Held(null));
      readLen := readLen - 1;
    }

    /** The read loop of `process_rx_ready_sockets`. */
    method DrainReaders(callbacks: seq<seq<Action>>) returns (served: seq<Socket>)
      requires Valid(0, 0, null) && forall c :: c in callbacks ==> KnowsActions(c)
      modifies this, sockets
      ensures Valid(0, 0, null)
      ensures (served, Now()) == Drain(old(Now()), ReadQueue, callbacks, 0, |old(readQ)| + old(readGets))
    {
      hide Valid, KnowsActions, ApplyAll, At, Drain;
      Counters();
      var idx, limit := 0, readLen;
      served := [];
      ghost var all := Drain(Now(), ReadQueue, callbacks, 0, limit);
      assert all.0 == served + all.0;
      while idx < limit && readQ != []
        invariant idx <= limit && Valid(0, 0, null)
        invariant var rest := Drain(Now(), ReadQueue, callbacks, idx, limit - idx);
                  all == (served + rest.0, rest.1)
      {
        KnowsAt(callbacks, idx);
        DrainStep(Now(), ReadQueue, callbacks, idx, limit - idx, served);
        var s := ServeReader(At(callbacks, idx));
        served, idx := served + [s], idx + 1;
      }
      DrainStep(Now(), ReadQueue, callbacks, idx, limit - idx, served);
    }

    /** One pass of that loop: the callback runs between taking the socket off the list and
        dropping the list's reference and count. */
    method ServeReader(callback: seq<Action>) returns (s: Socket)
      requires Valid(0, 0, null) && readQ != [] && KnowsActions(callback)
      modifies this, sockets
      ensures Valid(0, 0, null) && s == old(readQ)[0]
      ensures Now() == ApplyAll(old(Now()).Tail(ReadQueue), callback)
    {
      hide Valid, KnowsActions, ApplyAll;
      s := readQ[0];
      FirstIsKnown(s);
      StartRead(s);
      var _ := ActAll(callback, 1, 0, s);
      EndRead(s);
    }

    /** The closed-list loop of `process_rx_ready_sockets`.  Each step has the actions of
        `user_on_socket_fatal` and those the stack takes in `kernel_close`; the script ends the
        loop's supply of new work.  The loop stops at a removal that would go wrong. */
    method DrainClosed(steps: seq<(seq<Action>, seq<Action>)>) returns (ok: bool, called: seq<Socket>)
      requires Valid(0, 0, null)
      requires forall p :: p in steps ==> KnowsActions(p.0) && KnowsActions(p.1)
      modifies this, sockets
      ensures (ok, Now(), called) == DrainClosedQueue(old(Now()), steps)
      ensures ok <==> ClosedSound(old(Now()), steps)
      ensures Valid(0, 0, null)
    {
      hide Valid, KnowsActions, Without, ApplyAll, ClosedSound;
      NowNoDup();
      ClosedDrainSound(Now(), steps);
      var rest := steps;
      called := [];
      ghost var all := DrainClosedQueue(Now(), steps);
      assert all.2 == called + all.2;
      while closedQ != []
        invariant Valid(0, 0, null) && (forall p :: p in rest ==> p in steps)
        invariant var r := DrainClosedQueue(Now(), rest); all == (r.0, r.1, called + r.2)
        decreases |rest|, |closedQ|
      {
        var s := closedQ[0];
        var (callback, closing) := if rest == [] then ([], []) else rest[0];
        KnowsNothing();
        FirstIsKnown(s);
        ClosedStep(Now(), rest, called);
        called := called + [s];
        var _ := ActAll(callback, 0, 0, null);
        ApplyNothing();
        if s !in closedQ { return false, called; }
        FinishClosed(s);
        var _ := ActAll(closing, 0, 0, null);
        rest := if rest == [] then [] else rest[1..];
      }
      assert called + [] == called;
      return true, called;
    }

    lemma KnowsNothing()
      ensures KnowsActions([])
    {
    }

    lemma NowNoDup()
      requires Valid(0, 0, null)
      ensures NoDups(Now())
    {
    }

    lemma FirstIsKnown(s: Socket)
      requires Valid(0, 0, null) && (s in readQ || s in writeQ || s in closedQ || s in acceptQ)
      ensures s in sockets
    {
    }

    /** closed_queue_present = 0; TAILQ_REMOVE; sock_put; */
    method FinishClosed(s: Socket)
      requires Valid(0, 0, null) && s in closedQ
      modifies this`closedQ, s`closedPresent, s`refs
      ensures Valid(0, 0, null) && closedQ == Without(old(closedQ), s)
    {
      ClosedKnown(s);
      hide ReadMatches, WriteMatches, AcceptMatches, ClosedMatches, Accounted, Without, Held;
      DropClosed(s, Held(null));
      Release(s, Held(null));
    }

    /** The accept-list loop of `process_rx_ready_sockets`, scripted in the same way. */
    method DrainAccepted(callbacks: seq<seq<Action>>) returns (ok: bool, called: seq<Socket>)
      requires Valid(0, 0, null) && forall c :: c in callbacks ==> KnowsActions(c)
      modifies this, sockets
      ensures (ok, Now(), called) == DrainAcceptQueue(old(Now()), callbacks)
      ensures ok <==> AcceptSound(old(Now()), callbacks)
      ensures Valid(0, 0, null)
    {
      hide Valid, KnowsActions, Without, ApplyAll, AcceptSound;
      NowNoDup();
      AcceptDrainSound(Now(), callbacks);
      var rest := callbacks;
      called := [];
      ghost var all := DrainAcceptQueue(Now(), callbacks);
      assert all.2 == called + all.2;
      while acceptQ != []
        invariant Valid(0, 0, null) && (forall c :: c in rest ==> c in callbacks)
        invariant var r := DrainAcceptQueue(Now(), rest); all == (r.0, r.1, called + r.2)
        decreases |rest|, |acceptQ|
      {
        var s, callback := acceptQ[0], At(rest, 0);
        KnowsAt(rest, 0); KnowsNothing();
        FirstIsKnown(s);
        AcceptStep(Now(), rest, called);
        called := called + [s];
        var _ := ActAll(callback, 0, 0, null);
        ApplyNothing();
        if s !in acceptQ { return false, called; }
        FinishAccepted(s);
        rest := if rest == [] then [] else rest[1..];
      }
      assert called + [] == called;
      return true, called;
    }

    method FinishAccepted(s: Socket)
      requires Valid(0, 0, null) && s in acceptQ
      modifies this`acceptQ, s`acceptPresent, s`refs
      ensures Valid(0, 0, null) && acceptQ == Without(old(acceptQ), s)
    {
      AcceptKnown(s);
      hide ReadMatches, WriteMatches, AcceptMatches, ClosedMatches, Accounted, Without, Held;
      DropAccept(s, Held(null));
      Release(s, Held(null));
    }

    /** `process_rx_ready_sockets`: closed sockets, listeners, then readers. */
    method ProcessRx(steps: seq<(seq<Action>, seq<Action>)>, accepts: seq<seq<Action>>, readers: seq<seq<Action>>)
      returns (ok: bool, calls: Service)
      requires Valid(0, 0, null) && forall p :: p in steps ==> KnowsActions(p.0) && KnowsActions(p.1)
      requires (forall c :: c in accepts ==> KnowsActions(c)) && (forall c :: c in readers ==> KnowsActions(c))
      modifies this, sockets
      ensures Valid(0, 0, null) && (ok, Now(), calls) == DrainRx(old(Now()), steps, accepts, readers)
      ensures ok <==> ClosedSound(old(Now()), steps) && AcceptSound(DrainClosedQueue(old(Now()), steps).1, accepts)
      ensures ok && EventsOnlyAll(readers) ==>
                var waiting := DrainAcceptQueue(DrainClosedQueue(old(Now()), steps).1, accepts).1;
                waiting.readGets == 0 ==>
                  calls.served == waiting.read && readQ == Requeued(waiting.read, ReadQueue, readers, |waiting.read|)
    {
      hide Valid, KnowsActions, Drain, DrainClosedQueue, DrainAcceptQueue, ClosedSound, AcceptSound, Requeued;
      var called;
      calls := Service([], [], []);
      ok, called := DrainClosed(steps);
      calls := calls.(closed := called);
      if !ok { return; }
      ok, called := DrainAccepted(accepts);
      calls := calls.(accepted := called);
      if !ok { return; }
      if EventsOnlyAll(readers) { FirstComeFirstServed(Now(), ReadQueue, readers); }
      called := DrainReaders(readers);
      calls := calls.(served := called);
    }

    // ----- Every run -----

    /** The sockets and scripts of an operation are known; there is no other condition on it. */
    ghost predicate Possible(op: Operation) {
      match op
      case Do(a) => KnowsAction(a)
      case Tx(callbacks) => forall c :: c in callbacks ==> KnowsActions(c)
      case Rx(steps, accepts, readers) =>
        && (forall p :: p in steps ==> KnowsActions(p.0) && KnowsActions(p.1))
        && (forall c :: c in accepts ==> KnowsActions(c))
        && (forall c :: c in readers ==> KnowsActions(c))
    }

    /** Any sequence of events, calls and drains keeps the invariant and never reaches the exit; it
        runs to its end if and only if every fatal and accept callback leaves its own socket on
        its list.  The counters exceed the lists by exactly the sockets handed out. */
    method Run(ops: seq<Operation>) returns (ok: bool, calls: seq<Service>)
      requires Valid(0, 0, null) && forall op :: op in ops ==> Possible(op)
      modifies this, sockets
      ensures Valid(0, 0, null) && (ok, Now(), calls) == RunQueues(old(Now()), ops)
      ensures ok <==> Sound(old(Now()), ops)
      ensures ReadSlack() == old(ReadSlack()) + (readGets - old(readGets))
      ensures WriteSlack() == old(WriteSlack()) + (writeGets - old(writeGets))
    {
      hide Valid, KnowsActions, KnowsAction, Perform, Apply, ReadSlack, WriteSlack, Sound;
      NowNoDup();
      RunIsSound(Now(), ops);
      Counters();
      var i := 0;
      ok, calls := true, [];
      ghost var all := RunQueues(Now(), ops);
      assert ops[0..] == ops && all.2 == calls + all.2;
      while i < |ops| && ok
        invariant i <= |ops| && Valid(0, 0, null)
        invariant var r := if ok then RunQueues(Now(), ops[i..]) else (false, Now(), []);
                  all == (r.0, r.1, calls + r.2)
      {
        assert ops[i] in ops && ops[i..][1..] == ops[i + 1..];
        RunStep(Now(), ops[i..], calls);
        var c;
        ok, c := PerformOne(ops[i]);
        calls, i := calls + [c], i + 1;
      }
      assert calls + [] == calls;
      Counters();
    }

    method PerformOne(op: Operation) returns (ok: bool, calls: Service)
      requires Valid(0, 0, null) && Possible(op)
      modifies this, sockets
      ensures Valid(0, 0, null) && (ok, Now(), calls) == Perform(old(Now()), op)
    {
      hide Valid, KnowsActions, KnowsAction, Drain, DrainRx, Apply, Requeued, ClosedSound, AcceptSound;
      ok, calls := true, Service([], [], []);
      match op {
        case Do(a) => var _ := Act(a, 0, 0, null);
        case Tx(callbacks) =>
          var served := ProcessTx(callbacks);
          calls := calls.(served := served);
        case Rx(steps, accepts, readers) => ok, calls := ProcessRx(steps, accepts, readers);
      }
    }
  }

  datatype Operation =
    | Do(action: Action)
    | Tx(callbacks: seq<seq<Action>>)
    | Rx(steps: seq<(seq<Action>, seq<Action>)>, accepts: seq<seq<Action>>, readers: seq<seq<Action>>)

  /** What an operation does to the queues, and whom it calls; false if a removal goes wrong. */
  function Perform(qs: Queues, op: Operation): (r: (bool, Queues, Service)) {
    match op
    case Do(a) => (true, Apply(qs, a), Service([], [], []))
    case Tx(callbacks) =>
      var (served, last) := Drain(qs, WriteQueue, callbacks, 0, |qs.write| + qs.writeGets);
      (true, last, Service([], [], served))
    case Rx(steps, accepts, readers) => DrainRx(qs, steps, accepts, readers)
  }

  function RunQueues(qs: Queues, ops: seq<Operation>): (r: (bool, Queues, seq<Service>))
    decreases |ops|
  {
    if ops == [] then (true, qs, [])
    else
      var (ok, next, calls) := Perform(qs, ops[0]);
      if ok then
        var r := RunQueues(next, ops[1..]);
        (r.0, r.1, [calls] + r.2)
      else (false, next, [calls])
  }

  lemma RunStep(qs: Queues, ops: seq<Operation>, calls: seq<Service>)
    requires ops != []
    ensures var (ok, next, c) := Perform(qs, ops[0]);
            var r, rest := RunQueues(qs, ops), if ok then RunQueues(next, ops[1..]) else (false, next, []);
            (r.0, r.1, calls + r.2) == (rest.0, rest.1, (calls + [c]) + rest.2)
  {
    hide Perform;
    var (ok, next, c) := Perform(qs, ops[0]);
    assert (calls + [c]) + [] == calls + [c];
    if ok { assert calls + ([c] + RunQueues(next, ops[1..]).2) == (calls + [c]) + RunQueues(next, ops[1..]).2; }
  }

  lemma ClosedStep(qs: Queues, steps: seq<(seq<Action>, seq<Action>)>, before: seq<Socket>)
    requires qs.closed != []
    ensures var s, (callback, closing) := qs.closed[0], if steps == [] then ([], []) else steps[0];
            var called, r := ApplyAll(qs, callback), DrainClosedQueue(qs, steps);
            var rest := if s !in called.closed then (false, called, [])
                        else DrainClosedQueue(ApplyAll(called.(closed := Without(called.closed, s)), closing), if steps == [] then [] else steps[1..]);
            (r.0, r.1, before + r.2) == (rest.0, rest.1, (before + [s]) + rest.2)
  {
    hide ApplyAll, Without;
    var s, r := qs.closed[0], DrainClosedQueue(qs, steps);
    assert before + r.2 == (before + [s]) + r.2[1..];
  }

  lemma AcceptStep(qs: Queues, callbacks: seq<seq<Action>>, before: seq<Socket>)
    requires qs.accept != []
    ensures var s := qs.accept[0];
            var called, r := ApplyAll(qs, At(callbacks, 0)), DrainAcceptQueue(qs, callbacks);
            var rest := if s !in called.accept then (false, called, [])
                        else DrainAcceptQueue(called.(accept := Without(called.accept, s)), if callbacks == [] then [] else callbacks[1..]);
            (r.0, r.1, before + r.2) == (rest.0, rest.1, (before + [s]) + rest.2)
  {
    hide ApplyAll, Without;
    var s, r := qs.accept[0], DrainAcceptQueue(qs, callbacks);
    assert before + r.2 == (before + [s]) + r.2[1..];
  }

  // ----- Which callbacks leave their socket on its list -----

  function NextOf(k: Queue): Action {
    match k
    case ReadQueue => NextReader
    case WriteQueue => NextWriter
    case AcceptQueue => NextListener
    case ClosedQueue => NextClosed
  }

  ghost predicate NoDups(qs: Queues) {
    NoDup(qs.read) && NoDup(qs.write) && NoDup(qs.accept) && NoDup(qs.closed)
  }

  ghost predicate Targets(k: Queue, events: seq<Event>, s: Socket) {
    exists e :: e in events && Target(k, e) == s
  }

  /** An action takes s off list k: closing it, or handing it out as the first of the list. */
  ghost predicate Takes(qs: Queues, k: Queue, s: Socket, a: Action) {
    (a.Close? && a.socket == s) || (a == NextOf(k) && qs.Get(k) != [] && qs.Get(k)[0] == s)
  }

  /** An action puts s on list k: an event for it, also one raised by closing another listener. */
  ghost predicate Puts(qs: Queues, k: Queue, s: Socket, a: Action) {
    || (a.Raise? && Target(k, a.event) == s)
    || (a.Close? && a.socket != s && a.socket in qs.accept && Targets(k, a.raised, s))
  }

  /** Whether s ends up on list k if it is on it now or not: what counts is the last action that
      takes it off or puts it on. */
  ghost predicate Stays(qs: Queues, k: Queue, s: Socket, on: bool, actions: seq<Action>)
    decreases |actions|
  {
    if actions == [] then on
    else Stays(Apply(qs, actions[0]), k, s, !Takes(qs, k, s, actions[0]) && (on || Puts(qs, k, s, actions[0])), actions[1..])
  }

  lemma ApplyNoDups(qs: Queues, a: Action)
    requires NoDups(qs)
    ensures NoDups(Apply(qs, a))
  {
    hide NoDup, ArriveAll, Without;
    match a {
      case Raise(e) => GainNoDups(qs, [e]);
      case Close(s, raised) =>
        WithoutNoDup(qs.read, s); WithoutNoDup(qs.write, s);
        var q := qs.(read := Without(qs.read, s), write := Without(qs.write, s));
        GainNoDups(q, if s in qs.accept then raised else []);
        var g := q.Gain(if s in qs.accept then raised else []);
        WithoutNoDup(g.accept, s); WithoutNoDup(g.closed, s);
      case _ => TailsNoDup(qs);
    }
  }

  lemma GainNoDups(qs: Queues, events: seq<Event>)
    requires NoDups(qs)
    ensures NoDups(qs.Gain(events))
  {
    hide NoDup, ArriveAll;
    ArriveNoDup(qs.read, ReadQueue, events); ArriveNoDup(qs.write, WriteQueue, events);
    ArriveNoDup(qs.accept, AcceptQueue, events); ArriveNoDup(qs.closed, ClosedQueue, events);
  }

  lemma {:induction false} ArriveNoDup(q: seq<Socket>, k: Queue, events: seq<Event>)
    requires NoDup(q)
    ensures NoDup(ArriveAll(q, k, events))
    decreases |events|
  {
    hide Target;
    if events != [] {
      ArriveNoDup(Arrive(q, Target(k, events[0])), k, events[1..]);
    }
  }

  lemma TailsNoDup(qs: Queues)
    requires NoDups(qs)
    ensures forall k :: qs.Get(k) != [] ==> NoDup(qs.Get(k)[1..])
  {
  }

  predicate DrainsAfterCallback(k: Queue) { k == AcceptQueue || k == ClosedQueue }

  lemma OneAction(qs: Queues, k: Queue, s: Socket, a: Action)
    requires NoDups(qs) && DrainsAfterCallback(k)
    ensures s in Apply(qs, a).Get(k) <==> !Takes(qs, k, s, a) && (s in qs.Get(k) || Puts(qs, k, s, a))
  {
    hide NoDup, ArriveAll, Without, Target;
    match a {
      case Raise(e) => ArriveAllMembers(qs.Get(k), k, [e], s); Single(k, e, s);
      case Close(x, raised) =>
        var events := if x in qs.accept then raised else [];
        ArriveAllMembers(qs.Get(k), k, events, s);
        WithoutMembers(ArriveAll(qs.Get(k), k, events), x, s);
      case _ => if qs.Get(k) != [] { HeadAndTail(qs.Get(k), s); }
    }
  }

  lemma Single(k: Queue, e: Event, s: Socket)
    ensures Targets(k, [e], s) <==> Target(k, e) == s
    ensures !Targets(k, [], s)
  {
    if Target(k, e) == s { assert e in [e]; }
  }

  lemma WithoutMembers(q: seq<Socket>, x: Socket, s: Socket)
    ensures s in Without(q, x) <==> s in q && s != x
  {
  }

  lemma HeadAndTail(q: seq<Socket>, s: Socket)
    requires NoDup(q) && q != []
    ensures s in q[1..] <==> s in q && s != q[0]
  {
    if s in q && s != q[0] {
      var i :| 0 <= i < |q| && q[i] == s;
      assert q[1..][i - 1] == s;
    }
  }

  /** The exact condition, for every script. */
  lemma {:induction false} StaysExactly(qs: Queues, k: Queue, s: Socket, actions: seq<Action>)
    requires NoDups(qs) && DrainsAfterCallback(k)
    ensures NoDups(ApplyAll(qs, actions))
    ensures s in ApplyAll(qs, actions).Get(k) <==> Stays(qs, k, s, s in qs.Get(k), actions)
    decreases |actions|
  {
    hide NoDups, Takes, Puts, Apply;
    if actions != [] {
      ApplyNoDups(qs, actions[0]);
      OneAction(qs, k, s, actions[0]);
      StaysExactly(Apply(qs, actions[0]), k, s, actions[1..]);
    }
  }

  /** Every callback of a drain of the closed list leaves the socket it is about on the list. */
  ghost predicate ClosedSound(qs: Queues, steps: seq<(seq<Action>, seq<Action>)>)
    decreases |steps|, |qs.closed|
  {
    if qs.closed == [] then true
    else
      var s := qs.closed[0];
      var (callback, closing) := if steps == [] then ([], []) else steps[0];
      var called := ApplyAll(qs, callback);
      Stays(qs, ClosedQueue, s, true, callback) &&
      (s in called.closed ==>
        ClosedSound(ApplyAll(called.(closed := Without(called.closed, s)), closing), if steps == [] then [] else steps[1..]))
  }

  ghost predicate AcceptSound(qs: Queues, callbacks: seq<seq<Action>>)
    decreases |callbacks|, |qs.accept|
  {
    if qs.accept == [] then true
    else
      var s := qs.accept[0];
      var called := ApplyAll(qs, At(callbacks, 0));
      Stays(qs, AcceptQueue, s, true, At(callbacks, 0)) &&
      (s in called.accept ==>
        AcceptSound(called.(accept := Without(called.accept, s)), if callbacks == [] then [] else callbacks[1..]))
  }

  lemma {:induction false} ClosedDrainSound(qs: Queues, steps: seq<(seq<Action>, seq<Action>)>)
    requires NoDups(qs)
    ensures DrainClosedQueue(qs, steps).0 <==> ClosedSound(qs, steps)
    ensures NoDups(DrainClosedQueue(qs, steps).1)
    decreases |steps|, |qs.closed|
  {
    hide ApplyAll, Without, Stays, NoDup;
    if qs.closed != [] {
      var s := qs.closed[0];
      var (callback, closing) := if steps == [] then ([], []) else steps[0];
      var called := ApplyAll(qs, callback);
      ApplyNothing();
      StaysExactly(qs, ClosedQueue, s, callback);
      if s in called.closed {
        var removed := called.(closed := Without(called.closed, s));
        WithoutNoDup(called.closed, s);
        StaysExactly(removed, ClosedQueue, s, closing);
        ClosedDrainSound(ApplyAll(removed, closing), if steps == [] then [] else steps[1..]);
      }
    }
  }

  lemma {:induction false} AcceptDrainSound(qs: Queues, callbacks: seq<seq<Action>>)
    requires NoDups(qs)
    ensures DrainAcceptQueue(qs, callbacks).0 <==> AcceptSound(qs, callbacks)
    ensures NoDups(DrainAcceptQueue(qs, callbacks).1)
    decreases |callbacks|, |qs.accept|
  {
    hide ApplyAll, Without, Stays, NoDup;
    if qs.accept != [] {
      var s := qs.accept[0];
      var called := ApplyAll(qs, At(callbacks, 0));
      ApplyNothing();
      StaysExactly(qs, AcceptQueue, s, At(callbacks, 0));
      if s in called.accept {
        WithoutNoDup(called.accept, s);
        AcceptDrainSound(called.(accept := Without(called.accept, s)), if callbacks == [] then [] else callbacks[1..]);
      }
    }
  }

  lemma {:induction false} DrainNoDups(qs: Queues, k: Queue, callbacks: seq<seq<Action>>, i: nat, limit: nat)
    requires NoDups(qs)
    ensures NoDups(Drain(qs, k, callbacks, i, limit).1)
    decreases limit
  {
    hide ApplyAll, At, NoDup;
    if limit > 0 && qs.Get(k) != [] {
      TailsNoDup(qs);
      StaysExactly(qs.Tail(k), ClosedQueue, qs.Get(k)[0], At(callbacks, i));
      DrainNoDups(ApplyAll(qs.Tail(k), At(callbacks, i)), k, callbacks, i + 1, limit - 1);
    }
  }

  /** Every fatal and accept callback of a run leaves the socket it is about on its list. */
  ghost predicate Sound(qs: Queues, ops: seq<Operation>)
    decreases |ops|
  {
    ops != [] ==>
      && (ops[0].Rx? ==>
            && ClosedSound(qs, ops[0].steps)
            && AcceptSound(DrainClosedQueue(qs, ops[0].steps).1, ops[0].accepts))
      && Sound(Perform(qs, ops[0]).1, ops[1..])
  }

  lemma {:induction false} RunIsSound(qs: Queues, ops: seq<Operation>)
    requires NoDups(qs)
    ensures RunQueues(qs, ops).0 <==> Sound(qs, ops)
    ensures NoDups(RunQueues(qs, ops).1)
    decreases |ops|
  {
    hide NoDups, Apply, Drain, DrainClosedQueue, DrainAcceptQueue, ClosedSound, AcceptSound;
    if ops != [] {
      match ops[0] {
        case Do(a) => ApplyNoDups(qs, a);
        case Tx(callbacks) => DrainNoDups(qs, WriteQueue, callbacks, 0, |qs.write| + qs.writeGets);
        case Rx(steps, accepts, readers) =>
          ClosedDrainSound(qs, steps);
          var closed := DrainClosedQueue(qs, steps).1;
          AcceptDrainSound(closed, accepts);
          var accepted := DrainAcceptQueue(closed, accepts).1;
          DrainNoDups(accepted, ReadQueue, readers, 0, |accepted.read| + accepted.readGets);
      }
      var next := Perform(qs, ops[0]);
      if next.0 { RunIsSound(next.1, ops[1..]); }
    }
  }

  // ----- What one action does, list by list -----

  function Joined(q: seq<Socket>, s: Socket?, ready: bool): seq<Socket> {
    if s != null && ready && s !in q then q + [s] else q
  }

  /** An event puts its socket at the tail of one list, if the socket is ready and not there yet: an
      established or connectionless one for reading, a writeable one of these for writing, any one
      for closing; a wakeup puts the listener on the accept list or else counts as write space. */
  lemma RaisePuts(qs: Queues, e: Event)
    ensures Apply(qs, Raise(e)) == match e
      case Readable(s, established) => qs.(read := Joined(qs.read, s, s != null && (established || !s.stream)))
      case WriteSpace(s, established, writeable) =>
        qs.(write := Joined(qs.write, s, writeable && s != null && (established || !s.stream)))
      case ErrorReport(s) => qs.(closed := Joined(qs.closed, s, true))
      case Wakeup(s, listener, established, writeable) =>
        if listener != null then qs.(accept := Joined(qs.accept, listener, true))
        else qs.(write := Joined(qs.write, s, writeable && s != null && (established || !s.stream)))
  {
    ArriveOne(e);
  }

  /** Each of the four calls takes the first socket off its own list and changes no other. */
  lemma NextTakes(qs: Queues)
    ensures Apply(qs, NextReader) ==
      if qs.read == [] then qs
      else qs.(read := qs.read[1..], readGets := qs.readGets + 1, kept := OneMore(qs.kept, qs.read[0]))
    ensures Apply(qs, NextWriter) ==
      if qs.write == [] then qs
      else qs.(write := qs.write[1..], writeGets := qs.writeGets + 1, kept := OneMore(qs.kept, qs.write[0]))
    ensures Apply(qs, NextListener) ==
      if qs.accept == [] then qs else qs.(accept := qs.accept[1..], kept := OneMore(qs.kept, qs.accept[0]))
    ensures Apply(qs, NextClosed) ==
      if qs.closed == [] then qs else qs.(closed := qs.closed[1..], kept := OneMore(qs.kept, qs.closed[0]))
  {
    hide OneMore, Apply;
    NextReaderTakes(qs); NextWriterTakes(qs); NextListenerTakes(qs); NextClosedTakes(qs);
  }

  lemma NextReaderTakes(qs: Queues)
    ensures Apply(qs, NextReader) ==
      if qs.read == [] then qs
      else qs.(read := qs.read[1..], readGets := qs.readGets + 1, kept := OneMore(qs.kept, qs.read[0]))
  {
  }

  lemma NextWriterTakes(qs: Queues)
    ensures Apply(qs, NextWriter) ==
      if qs.write == [] then qs
      else qs.(write := qs.write[1..], writeGets := qs.writeGets + 1, kept := OneMore(qs.kept, qs.write[0]))
  {
  }

  lemma NextListenerTakes(qs: Queues)
    ensures Apply(qs, NextListener) ==
      if qs.accept == [] then qs else qs.(accept := qs.accept[1..], kept := OneMore(qs.kept, qs.accept[0]))
  {
  }

  lemma NextClosedTakes(qs: Queues)
    ensures Apply(qs, NextClosed) ==
      if qs.closed == [] then qs else qs.(closed := qs.closed[1..], kept := OneMore(qs.kept, qs.closed[0]))
  {
  }

  function OneMore(m: multiset<Socket>, s: Socket): multiset<Socket> {
    m[s := m[s] + 1]
  }

  /** q' is q without s, which is in one place at most; the others keep their order. */
  ghost predicate TakenOff(q: seq<Socket>, s: Socket, q': seq<Socket>) {
    && (s !in q ==> q' == q)
    && (forall i :: 0 <= i < |q| && q[i] == s ==> q' == q[..i] + q[i + 1..])
  }

  lemma WithoutIsTakenOff(q: seq<Socket>, s: Socket)
    requires NoDup(q)
    ensures TakenOff(q, s, Without(q, s))
  {
    hide NoDup, Without;
    WithoutNoDup(q, s);
    forall i | 0 <= i < |q| && q[i] == s ensures Without(q, s) == q[..i] + q[i + 1..] { WithoutAt(q, s, i); }
  }

  lemma {:induction false} WithoutAt(q: seq<Socket>, s: Socket, i: nat)
    requires NoDup(q) && i < |q| && q[i] == s
    ensures Without(q, s) == q[..i] + q[i + 1..]
    decreases i
  {
    TailMembers(q);
    WithoutHead(q, s);
    hide NoDup, Without;
    var rest := q[1..];
    if i == 0 {
      WithoutNoDup(rest, s);
      assert q[..0] + rest == rest;
    } else {
      assert rest[i - 1] == s;
      WithoutAt(rest, s, i - 1);
      PutBack(q, i);
    }
  }

  lemma PutBack(q: seq<Socket>, i: nat)
    requires 0 < i < |q|
    ensures [q[0]] + (q[1..][..i - 1] + q[1..][i..]) == q[..i] + q[i + 1..]
  {
  }

  lemma WithoutHead(q: seq<Socket>, s: Socket)
    requires q != []
    ensures Without(q, s) == if q[0] == s then Without(q[1..], s) else [q[0]] + Without(q[1..], s)
  {
  }

  /** A close while no connections are pending takes the socket off all four lists, where the others
      keep their order, and leaves one reference behind for each list it was on. */
  lemma CloseTakesOff(qs: Queues, s: Socket, raised: seq<Event>)
    requires NoDups(qs) && (raised == [] || s !in qs.accept)
    ensures var last := Apply(qs, Close(s, raised));
            && TakenOff(qs.read, s, last.read) && TakenOff(qs.write, s, last.write)
            && TakenOff(qs.accept, s, last.accept) && TakenOff(qs.closed, s, last.closed)
            && last.readGets == qs.readGets && last.writeGets == qs.writeGets
            && (forall x :: x != s ==> last.kept[x] == qs.kept[x])
            && last.kept[s] == qs.kept[s] + One(s in qs.read) + One(s in qs.write) + One(s in qs.accept) + One(s in qs.closed)
  {
    hide NoDup, Without, TakenOff, Apply, One;
    CloseIs(qs, s, raised);
    WithoutIsTakenOff(qs.read, s); WithoutIsTakenOff(qs.write, s);
    WithoutIsTakenOff(qs.accept, s); WithoutIsTakenOff(qs.closed, s);
  }

  lemma CloseIs(qs: Queues, s: Socket, raised: seq<Event>)
    requires raised == [] || s !in qs.accept
    ensures var last := Apply(qs, Close(s, raised));
            && last.read == Without(qs.read, s) && last.write == Without(qs.write, s)
            && last.accept == Without(qs.accept, s) && last.closed == Without(qs.closed, s)
            && last.readGets == qs.readGets && last.writeGets == qs.writeGets
            && (forall x :: x != s ==> last.kept[x] == qs.kept[x])
            && last.kept[s] == qs.kept[s] + One(s in qs.read) + One(s in qs.write) + One(s in qs.accept) + One(s in qs.closed)
  {
    hide Without;
  }

  /** With pending connections, the events that accepting and closing them raises come after the socket
      has left the lists for reading and writing, and before it leaves the other two. */
  lemma CloseWithPending(qs: Queues, s: Socket, raised: seq<Event>, x: Socket)
    requires NoDups(qs) && s in qs.accept
    ensures var last := Apply(qs, Close(s, raised));
            && (x in last.read <==> (x in qs.read && x != s) || Targets(ReadQueue, raised, x))
            && (x in last.write <==> (x in qs.write && x != s) || Targets(WriteQueue, raised, x))
            && (x in last.accept <==> (x in qs.accept || Targets(AcceptQueue, raised, x)) && x != s)
            && (x in last.closed <==> (x in qs.closed || Targets(ClosedQueue, raised, x)) && x != s)
  {
    hide NoDup, ArriveAll, Without, Target;
    ArriveAllMembers(Without(qs.read, s), ReadQueue, raised, x);
    ArriveAllMembers(Without(qs.write, s), WriteQueue, raised, x);
    ArriveAllMembers(qs.accept, AcceptQueue, raised, x);
    ArriveAllMembers(qs.closed, ClosedQueue, raised, x);
    WithoutMembers(qs.read, s, x); WithoutMembers(qs.write, s, x);
    WithoutMembers(ArriveAll(qs.accept, AcceptQueue, raised), s, x);
    WithoutMembers(ArriveAll(qs.closed, ClosedQueue, raised), s, x);
  }

  // ----- Whom the drains of a run call -----

  /** `process_rx_ready_sockets`, once its first two loops have gone well and if nothing has been handed
      out by get_next_reader: it serves exactly the sockets those loops leave for reading, in order,
      and what is left is what has been queued again. */
  lemma ReadersServed(qs: Queues, steps: seq<(seq<Action>, seq<Action>)>, accepts: seq<seq<Action>>, readers: seq<seq<Action>>)
    requires DrainRx(qs, steps, accepts, readers).0 && EventsOnlyAll(readers)
    requires qs.readGets == 0 && (forall p :: p in steps ==> Counted(p.0) && Counted(p.1)) && forall c :: c in accepts ==> Counted(c)
    ensures var (_, last, calls) := DrainRx(qs, steps, accepts, readers);
            var waiting := DrainAcceptQueue(DrainClosedQueue(qs, steps).1, accepts).1.read;
            && calls.served == waiting && last.read == Requeued(waiting, ReadQueue, readers, |waiting|)
            && (EventsOnlyAll(readers) && (forall c :: c in readers ==> c == []) ==> last.read == [])
  {
    hide Drain, DrainClosedQueue, DrainAcceptQueue, Counted, Requeued, EventsOnly;
    CountedClosed(qs, steps);
    CountedAccepted(DrainClosedQueue(qs, steps).1, accepts);
    var accepted := DrainAcceptQueue(DrainClosedQueue(qs, steps).1, accepts).1;
    FirstComeFirstServed(accepted, ReadQueue, readers);
    if forall c :: c in readers ==> c == [] { NothingRaised(accepted.read, ReadQueue, readers, |accepted.read|); }
  }

  lemma {:induction false} NothingRaised(q0: seq<Socket>, k: Queue, callbacks: seq<seq<Action>>, i: nat)
    requires i <= |q0| && forall c :: c in callbacks ==> c == []
    ensures Requeued(q0, k, callbacks, i) == []
    decreases i
  {
    hide Requeued, Events, At, ArriveAll;
    if i == 0 {
      NothingRequeued(q0, k, callbacks);
    } else {
      NothingRaised(q0, k, callbacks, i - 1);
      PassOver(q0, k, callbacks, i - 1);
      NoEvents(callbacks, i - 1);
      NoneArrive(q0[i - 1..][1..], k);
      assert q0[i - 1..] + [] == q0[i - 1..];
    }
  }

  lemma NoneArrive(q: seq<Socket>, k: Queue)
    ensures ArriveAll(q, k, []) == q
  {
  }

  lemma NoEvents(callbacks: seq<seq<Action>>, i: nat)
    requires forall c :: c in callbacks ==> c == []
    ensures Events(At(callbacks, i)) == []
  {
    if i < |callbacks| { assert callbacks[i] in callbacks; }
  }

  /** `process_tx_ready_sockets` in the same way. */
  lemma WritersServed(qs: Queues, callbacks: seq<seq<Action>>)
    requires qs.writeGets == 0 && EventsOnlyAll(callbacks)
    ensures var (ok, last, calls) := Perform(qs, Tx(callbacks));
            ok && calls.served == qs.write && last.write == Requeued(qs.write, WriteQueue, callbacks, |qs.write|)
  {
    hide Drain, Requeued;
    FirstComeFirstServed(qs, WriteQueue, callbacks);
  }

  /** The closed and accept loops call the user for the sockets on their lists, in order, before any
      that join later. */
  lemma {:induction false} ClosedInOrder(qs: Queues, steps: seq<(seq<Action>, seq<Action>)>)
    requires NoDups(qs) && forall p :: p in steps ==> Harmless(ClosedQueue, p.0) && Harmless(ClosedQueue, p.1)
    ensures qs.closed <= DrainClosedQueue(qs, steps).2
    decreases |steps|, |qs.closed|
  {
    hide ApplyAll, Without, NoDup, Stays, Harmless;
    if qs.closed != [] {
      var s := qs.closed[0];
      var (callback, closing) := if steps == [] then ([], []) else steps[0];
      var called := ApplyAll(qs, callback);
      HarmlessNothing(ClosedQueue); ApplyNothing();
      HarmlessStays(qs, ClosedQueue, s, callback);
      StaysExactly(qs, ClosedQueue, s, callback);
      HarmlessAppends(qs, ClosedQueue, callback);
      WithoutFirst(called.closed, s);
      WithoutNoDup(called.closed, s);
      var removed := called.(closed := Without(called.closed, s));
      HarmlessAppends(removed, ClosedQueue, closing);
      StaysExactly(removed, ClosedQueue, s, closing);
      ClosedInOrder(ApplyAll(removed, closing), if steps == [] then [] else steps[1..]);
      assert qs.closed == [s] + qs.closed[1..] && qs.closed[1..] <= called.closed[1..];
    }
  }

  lemma {:induction false} AcceptedInOrder(qs: Queues, callbacks: seq<seq<Action>>)
    requires NoDups(qs) && forall c :: c in callbacks ==> Harmless(AcceptQueue, c)
    ensures qs.accept <= DrainAcceptQueue(qs, callbacks).2
    decreases |callbacks|, |qs.accept|
  {
    hide ApplyAll, Without, NoDup, Stays, Harmless;
    if qs.accept != [] {
      var s := qs.accept[0];
      var called := ApplyAll(qs, At(callbacks, 0));
      HarmlessNothing(AcceptQueue); ApplyNothing();
      HarmlessStays(qs, AcceptQueue, s, At(callbacks, 0));
      StaysExactly(qs, AcceptQueue, s, At(callbacks, 0));
      HarmlessAppends(qs, AcceptQueue, At(callbacks, 0));
      WithoutFirst(called.accept, s);
      WithoutNoDup(called.accept, s);
      AcceptedInOrder(called.(accept := Without(called.accept, s)), if callbacks == [] then [] else callbacks[1..]);
      assert qs.accept == [s] + qs.accept[1..] && qs.accept[1..] <= called.accept[1..];
    }
  }

  lemma HarmlessNothing(k: Queue)
    ensures Harmless(k, [])
  {
  }

  lemma WithoutFirst(q: seq<Socket>, s: Socket)
    requires NoDup(q) && q != [] && q[0] == s
    ensures Without(q, s) == q[1..]
  {
    WithoutIsTakenOff(q, s);
    assert q[..0] + q[1..] == q[1..];
  }

  lemma {:induction false} HarmlessAppends(qs: Queues, k: Queue, actions: seq<Action>)
    requires Harmless(k, actions) && DrainsAfterCallback(k)
    ensures qs.Get(k) <= ApplyAll(qs, actions).Get(k)
    decreases |actions|
  {
    hide ArriveAll;
    if actions != [] {
      assert qs.Get(k) <= Apply(qs, actions[0]).Get(k) by { assert actions[0] in actions; }
      HarmlessAppends(Apply(qs, actions[0]), k, actions[1..]);
    }
  }

  /** Every pass of a run: what has been said of the two drains holds of each of its operations, in the
      state the operations before it have led to. */
  lemma EveryPassServes(qs: Queues, ops: seq<Operation>, i: nat)
    requires i < |ops| && RunQueues(qs, ops[..i]).0
    ensures var before := RunQueues(qs, ops[..i]).1;
            var (ok, last, calls) := Perform(before, ops[i]);
            && |RunQueues(qs, ops).2| > i && RunQueues(qs, ops).2[i] == calls
            && (RunQueues(qs, ops[..i + 1]).0 <==> ok) && RunQueues(qs, ops[..i + 1]).1 == last
            && (ops[i].Do? ==> ok && last == Apply(before, ops[i].action))
            && (ops[i].Tx? && before.writeGets == 0 && EventsOnlyAll(ops[i].callbacks) ==>
                  && ok && calls.served == before.write
                  && last.write == Requeued(before.write, WriteQueue, ops[i].callbacks, |before.write|))
            && (ops[i].Rx? && ok && before.readGets == 0 && EventsOnlyAll(ops[i].readers) && CountedOp(ops[i]) ==>
                  var waiting := DrainAcceptQueue(DrainClosedQueue(before, ops[i].steps).1, ops[i].accepts).1.read;
                  calls.served == waiting && last.read == Requeued(waiting, ReadQueue, ops[i].readers, |waiting|))
  {
    hide DrainRx, Drain, DrainClosedQueue, DrainAcceptQueue, Requeued, Apply, Counted, EventsOnlyAll;
    RunSplits(qs, ops, i);
    var before := RunQueues(qs, ops[..i]).1;
    match ops[i] {
      case Do(_) =>
      case Tx(callbacks) => if before.writeGets == 0 && EventsOnlyAll(callbacks) { WritersServed(before, callbacks); }
      case Rx(steps, accepts, readers) =>
        if Perform(before, ops[i]).0 && before.readGets == 0 && EventsOnlyAll(readers) && CountedOp(ops[i]) {
          ReadersServed(before, steps, accepts, readers);
        }
    }
  }

  lemma {:induction false} RunSplits(qs: Queues, ops: seq<Operation>, i: nat)
    requires i < |ops| && RunQueues(qs, ops[..i]).0
    ensures var before := RunQueues(qs, ops[..i]);
            var (ok, last, calls) := Perform(before.1, ops[i]);
            && |before.2| == i && |RunQueues(qs, ops).2| > i && RunQueues(qs, ops).2[i] == calls
            && (RunQueues(qs, ops[..i + 1]).0 <==> ok) && RunQueues(qs, ops[..i + 1]).1 == last
    decreases i
  {
    hide Perform;
    var (ok, next, calls) := Perform(qs, ops[0]);
    assert ops[..i + 1][0] == ops[0] && ops[..i + 1][1..] == ops[1..][..i];
    if i > 0 {
      assert ops[..i][0] == ops[0] && ops[..i][1..] == ops[1..][..i - 1];
      RunSplits(next, ops[1..], i - 1);
    }
  }

  // ----- What events do to the queues -----

  lemma ApplyNothing()
    ensures forall qs: Queues :: ApplyAll(qs, []) == qs
  {
  }

  lemma ArriveOne(e: Event)
    ensures forall q: seq<Socket>, k: Queue :: ArriveAll(q, k, [e]) == Arrive(q, Target(k, e))
  {
    forall q: seq<Socket>, k: Queue ensures ArriveAll(q, k, [e]) == Arrive(q, Target(k, e)) {
      assert [e][1..] == [];
    }
  }

  lemma GainOne(qs: Queues, e: Event)
    ensures qs.Gain([e]) == match e
      case Readable(_, _) => qs.(read := Arrive(qs.read, Target(ReadQueue, e)))
      case WriteSpace(_, _, _) => qs.(write := Arrive(qs.write, Target(WriteQueue, e)))
      case ErrorReport(s) => qs.(closed := Arrive(qs.closed, s))
      case Wakeup(_, listener, _, _) =>
        qs.(accept := Arrive(qs.accept, listener), write := Arrive(qs.write, Target(WriteQueue, e)))
  {
    hide ArriveAll;
    ArriveOne(e);
  }

  lemma GainStep(qs: Queues, events: seq<Event>)
    ensures qs.Gain(events) == if events == [] then qs else qs.Gain([events[0]]).Gain(events[1..])
  {
    if events != [] { ArriveOne(events[0]); }
  }

  lemma DrainStep(qs: Queues, k: Queue, callbacks: seq<seq<Action>>, i: nat, limit: nat, served: seq<Socket>)
    ensures var all := Drain(qs, k, callbacks, i, limit);
            if limit == 0 || qs.Get(k) == [] then all == ([], qs) && served + all.0 == served
            else var rest := Drain(ApplyAll(qs.Tail(k), At(callbacks, i)), k, callbacks, i + 1, limit - 1);
                 (served + all.0, all.1) == (served + [qs.Get(k)[0]] + rest.0, rest.1)
  {
    hide ApplyAll, At;
    var rest := Drain(ApplyAll(qs.Tail(k), At(callbacks, i)), k, callbacks, i + 1, if limit == 0 then 0 else limit - 1);
    assert qs.Get(k) != [] ==> served + ([qs.Get(k)[0]] + rest.0) == served + [qs.Get(k)[0]] + rest.0;
  }

  /** The events among some actions. */
  function Events(actions: seq<Action>): seq<Event> {
    if actions == [] then []
    else (if actions[0].Raise? then [actions[0].event] else []) + Events(actions[1..])
  }

  lemma {:induction false} EventsGain(qs: Queues, actions: seq<Action>)
    requires EventsOnly(actions)
    ensures ApplyAll(qs, actions) == qs.Gain(Events(actions))
    decreases |actions|
  {
    hide Queues.Gain;
    if actions == [] {
      GainStep(qs, []);
    } else {
      var e := actions[0].event;
      assert Events(actions) == [e] + Events(actions[1..]);
      GainStep(qs, Events(actions));
      EventsGain(Apply(qs, actions[0]), actions[1..]);
    }
  }

  // ----- What a script alone decides -----

  /** Where the socket a callback is about is, as far as its script tells: at the front of its list
      since the beginning, off it, back on it at some place, or either. */
  datatype Place = Front | Off | Back | Unsure

  ghost function Moved(k: Queue, s: Socket, p: Place, a: Action): Place {
    if a.Close? && a.socket == s then Off
    else if a.Close? then (if p == Off && Targets(k, a.raised, s) then Unsure else p)
    else if a.Raise? then (if Target(k, a.event) != s || p == Front then p else Back)
    else if a != NextOf(k) then p
    else match p
      case Front => Off
      case Off => Off
      case _ => Unsure
  }

  ghost function Fate(k: Queue, s: Socket, p: Place, actions: seq<Action>): Place
    decreases |actions|
  {
    if actions == [] then p else Fate(k, s, Moved(k, s, p, actions[0]), actions[1..])
  }

  ghost predicate Fits(qs: Queues, k: Queue, s: Socket, p: Place) {
    match p
    case Front => qs.Get(k) != [] && qs.Get(k)[0] == s
    case Off => s !in qs.Get(k)
    case Back => s in qs.Get(k)
    case Unsure => true
  }

  lemma FitsMoved(qs: Queues, k: Queue, s: Socket, p: Place, a: Action)
    requires NoDups(qs) && DrainsAfterCallback(k) && Fits(qs, k, s, p)
    ensures Fits(Apply(qs, a), k, s, Moved(k, s, p, a))
  {
    hide NoDups, Apply, Target, Targets, Queues.Get;
    OneAction(qs, k, s, a);
    if p == Front {
      StaysFirst(qs, k, s, a);
    }
  }

  lemma StaysFirst(qs: Queues, k: Queue, s: Socket, a: Action)
    requires NoDups(qs) && DrainsAfterCallback(k) && qs.Get(k) != [] && qs.Get(k)[0] == s
    ensures a != NextOf(k) && !(a.Close? && a.socket == s) ==> Apply(qs, a).Get(k) != [] && Apply(qs, a).Get(k)[0] == s
  {
    hide NoDup, ArriveAll, Target, Without;
    if a.Close? && a.socket != s {
      FirstWithout(ArriveAll(qs.Get(k), k, if a.socket in qs.accept then a.raised else []), a.socket);
    }
  }

  lemma FirstWithout(q: seq<Socket>, x: Socket)
    ensures q != [] && q[0] != x ==> Without(q, x) != [] && Without(q, x)[0] == q[0]
  {
  }

  /** Unless the script hands sockets out after putting s back, or raises events for s by closing
      another socket while s is off, it alone decides whether s is on its list afterwards. */
  lemma {:induction false} ScriptDecides(qs: Queues, k: Queue, s: Socket, p: Place, actions: seq<Action>)
    requires NoDups(qs) && DrainsAfterCallback(k) && Fits(qs, k, s, p)
    ensures Fits(ApplyAll(qs, actions), k, s, Fate(k, s, p, actions))
    decreases |actions|
  {
    hide NoDups, Fits, Moved, Apply;
    if actions != [] {
      FitsMoved(qs, k, s, p, actions[0]);
      ApplyNoDups(qs, actions[0]);
      ScriptDecides(Apply(qs, actions[0]), k, s, Moved(k, s, p, actions[0]), actions[1..]);
    }
  }

  /** The first callback of the closed loop: the removal after it is sound exactly unless its script
      has taken the socket off for good. */
  lemma FatalCallback(qs: Queues, callback: seq<Action>)
    requires NoDups(qs) && qs.closed != []
    requires Fate(ClosedQueue, qs.closed[0], Front, callback) != Unsure
    ensures Stays(qs, ClosedQueue, qs.closed[0], true, callback)
            <==> Fate(ClosedQueue, qs.closed[0], Front, callback) != Off
  {
    hide NoDups, Stays, Fate, ApplyAll;
    ScriptDecides(qs, ClosedQueue, qs.closed[0], Front, callback);
    StaysExactly(qs, ClosedQueue, qs.closed[0], callback);
  }

  lemma AcceptCallback(qs: Queues, callback: seq<Action>)
    requires NoDups(qs) && qs.accept != []
    requires Fate(AcceptQueue, qs.accept[0], Front, callback) != Unsure
    ensures Stays(qs, AcceptQueue, qs.accept[0], true, callback)
            <==> Fate(AcceptQueue, qs.accept[0], Front, callback) != Off
  {
    hide NoDups, Stays, Fate, ApplyAll;
    ScriptDecides(qs, AcceptQueue, qs.accept[0], Front, callback);
    StaysExactly(qs, AcceptQueue, qs.accept[0], callback);
  }

  /** Without an event for s afterwards, closing s or handing it out settles the matter; calls that do
      neither keep it at the front. */
  lemma {:induction false} FateOfCalls(k: Queue, s: Socket, p: Place, actions: seq<Action>)
    requires DrainsAfterCallback(k) && (p == Front || p == Off)
    requires forall a :: a in actions ==> !(a.Raise? && Target(k, a.event) == s) && !(a.Close? && Targets(k, a.raised, s))
    ensures Fate(k, s, p, actions) == Off
            <==> p == Off || exists a :: a in actions && (a == NextOf(k) || (a.Close? && a.socket == s))
    ensures Fate(k, s, p, actions) != Back && Fate(k, s, p, actions) != Unsure
    decreases |actions|
  {
    hide Target, Targets;
    if actions != [] {
      var a, rest := actions[0], actions[1..];
      FateOfCalls(k, s, Moved(k, s, p, a), rest);
      assert actions == [a] + rest;
    }
  }

  lemma FirstOf(qs: Queues, s: Socket, p: Place, a: Action, rest: seq<Action>)
    ensures ApplyAll(qs, [a] + rest) == ApplyAll(Apply(qs, a), rest) && ApplyAll(qs, []) == qs
    ensures Fate(ClosedQueue, s, p, [a] + rest) == Fate(ClosedQueue, s, Moved(ClosedQueue, s, p, a), rest)
    ensures Fate(ClosedQueue, s, p, []) == p
  {
    hide Apply, Moved;
    assert ([a] + rest)[1..] == rest;
  }

  /** The script that hands out the first socket, puts s back and hands out the first again. */
  function HandOutTwice(s: Socket): seq<Action> {
    [NextClosed] + ([Raise(ErrorReport(s))] + ([NextClosed] + []))
  }

  lemma HandedOutTwice(s: Socket, others: seq<Socket>)
    requires NoDup([s] + others)
    ensures Fate(ClosedQueue, s, Front, HandOutTwice(s)) == Unsure
    ensures Stays(Queues([], [], [], [s] + others, 0, 0, multiset{}), ClosedQueue, s, true, HandOutTwice(s)) <==> others != []
  {
    hide Apply, NoDup, Stays, ApplyAll, Fate;
    var qs := Queues([], [], [], [s] + others, 0, 0, multiset{});
    var back := Raise(ErrorReport(s));
    var q1 := Apply(qs, NextClosed);
    var q2 := Apply(q1, back);
    var q3 := Apply(q2, NextClosed);
    NoDup0();
    StaysExactly(qs, ClosedQueue, s, HandOutTwice(s));
    FirstOf(qs, s, Front, NextClosed, [back] + ([NextClosed] + []));
    FirstOf(q1, s, Off, back, [NextClosed] + []);
    FirstOf(q2, s, Back, NextClosed, []);
    FirstOf(q3, s, Unsure, NextClosed, []);
    OutAndBack(s, others);
  }

  lemma NoDup0()
    ensures NoDup([])
  {
  }

  lemma OutAndBack(s: Socket, others: seq<Socket>)
    requires NoDup([s] + others)
    ensures var qs := Queues([], [], [], [s] + others, 0, 0, multiset{});
            && qs.closed[0] == s && s in qs.closed
            && (s in Apply(Apply(Apply(qs, NextClosed), Raise(ErrorReport(s))), NextClosed).closed <==> others != [])
  {
    var qs := Queues([], [], [], [s] + others, 0, 0, multiset{});
    HeadAndTail(qs.closed, s);
    ArriveOne(ErrorReport(s));
    var q1 := Apply(qs, NextClosed);
    assert q1.closed == others && s !in others by { assert ([s] + others)[1..] == others; }
    var q2 := Apply(q1, Raise(ErrorReport(s)));
    assert q2.closed == others + [s];
    hide ArriveAll, NoDup;
    assert others != [] ==> (others + [s])[1..] == others[1..] + [s];
  }

  /** Which sockets are ahead decides where the script alone does not. */
  lemma UnsureIsUnsure(s: Socket, t: Socket)
    requires s != t
    ensures Fate(ClosedQueue, s, Front, HandOutTwice(s)) == Unsure
    ensures !Stays(Queues([], [], [], [s], 0, 0, multiset{}), ClosedQueue, s, true, HandOutTwice(s))
    ensures Stays(Queues([], [], [], [s, t], 0, 0, multiset{}), ClosedQueue, s, true, HandOutTwice(s))
  {
    hide Stays, Fate, HandOutTwice;
    assert [s] + [] == [s] && [s] + [t] == [s, t];
    HandedOutTwice(s, []);
    HandedOutTwice(s, [t]);
  }

  /** Callbacks without a close that do not hand out sockets of the list leave theirs on it. */
  predicate Harmless(k: Queue, actions: seq<Action>) {
    forall a :: a in actions ==> !a.Close? && a != NextOf(k)
  }

  lemma {:induction false} HarmlessStays(qs: Queues, k: Queue, s: Socket, actions: seq<Action>)
    requires Harmless(k, actions)
    ensures Stays(qs, k, s, true, actions)
    decreases |actions|
  {
    hide Apply, Puts;
    if actions != [] {
      HarmlessStays(Apply(qs, actions[0]), k, s, actions[1..]);
    }
  }

  /** With such callbacks the closed loop is sound and empties its list. */
  lemma {:induction false} HarmlessKeepClosed(qs: Queues, steps: seq<(seq<Action>, seq<Action>)>)
    requires NoDups(qs) && forall p :: p in steps ==> Harmless(ClosedQueue, p.0)
    ensures DrainClosedQueue(qs, steps).0 && DrainClosedQueue(qs, steps).1.closed == []
    decreases |steps|, |qs.closed|
  {
    hide ApplyAll, Without, NoDup, Stays;
    if qs.closed != [] {
      var s := qs.closed[0];
      var (callback, closing) := if steps == [] then ([], []) else steps[0];
      var called := ApplyAll(qs, callback);
      ApplyNothing();
      HarmlessStays(qs, ClosedQueue, s, callback);
      StaysExactly(qs, ClosedQueue, s, callback);
      WithoutNoDup(called.closed, s);
      var removed := called.(closed := Without(called.closed, s));
      StaysExactly(removed, ClosedQueue, s, closing);
      HarmlessKeepClosed(ApplyAll(removed, closing), if steps == [] then [] else steps[1..]);
    }
  }

  lemma {:induction false} HarmlessKeepAccepted(qs: Queues, callbacks: seq<seq<Action>>)
    requires NoDups(qs) && forall c :: c in callbacks ==> Harmless(AcceptQueue, c)
    ensures DrainAcceptQueue(qs, callbacks).0 && DrainAcceptQueue(qs, callbacks).1.accept == []
    decreases |callbacks|, |qs.accept|
  {
    hide ApplyAll, Without, NoDup, Stays;
    if qs.accept != [] {
      var s := qs.accept[0];
      var called := ApplyAll(qs, At(callbacks, 0));
      ApplyNothing();
      HarmlessStays(qs, AcceptQueue, s, At(callbacks, 0));
      StaysExactly(qs, AcceptQueue, s, At(callbacks, 0));
      WithoutNoDup(called.accept, s);
      HarmlessKeepAccepted(called.(accept := Without(called.accept, s)), if callbacks == [] then [] else callbacks[1..]);
    }
  }

  /** A failing case of the closed loop: the socket is closed from within its own callback. */
  lemma CloseInsideFatalCallback(s: Socket, raised: seq<Event>)
    ensures !DrainClosedQueue(Queues([], [], [], [s], 0, 0, multiset{}), [([Close(s, raised)], [])]).0
  {
    var qs := Queues([], [], [], [s], 0, 0, multiset{});
    hide ClosedSound, Apply;
    ClosedDrainSound(qs, [([Close(s, raised)], [])]);
    FatalCallback(qs, [Close(s, raised)]);
    assert [Close(s, raised)][1..] == [];
    assert Fate(ClosedQueue, s, Front, [Close(s, raised)]) == Off;
  }

  // ----- The account -----

  /** No `app_glue_get_next_reader` or `app_glue_get_next_writer` among the actions. */
  predicate Counted(actions: seq<Action>) {
    NextReader !in actions && NextWriter !in actions
  }

  /** What a call adds to the account: one for a socket handed out, and nothing else does. */
  lemma OneGet(qs: Queues, a: Action)
    ensures Apply(qs, a).readGets == qs.readGets + One(a == NextReader && qs.read != [])
    ensures Apply(qs, a).writeGets == qs.writeGets + One(a == NextWriter && qs.write != [])
  {
  }

  ghost predicate SameGets(qs: Queues, last: Queues) {
    last.readGets == qs.readGets && last.writeGets == qs.writeGets
  }

  lemma {:induction false} CountedApply(qs: Queues, actions: seq<Action>)
    requires Counted(actions)
    ensures SameGets(qs, ApplyAll(qs, actions))
    decreases |actions|
  {
    hide Apply;
    if actions != [] {
      OneGet(qs, actions[0]);
      CountedApply(Apply(qs, actions[0]), actions[1..]);
    }
  }

  lemma {:induction false} CountedDrain(qs: Queues, k: Queue, callbacks: seq<seq<Action>>, i: nat, limit: nat)
    requires forall c :: c in callbacks ==> Counted(c)
    ensures SameGets(qs, Drain(qs, k, callbacks, i, limit).1)
    decreases limit
  {
    hide ApplyAll, Counted;
    CountedNothing();
    if limit > 0 && qs.Get(k) != [] {
      CountedApply(qs.Tail(k), At(callbacks, i));
      CountedDrain(ApplyAll(qs.Tail(k), At(callbacks, i)), k, callbacks, i + 1, limit - 1);
    }
  }

  lemma CountedNothing()
    ensures Counted([])
  {
  }

  lemma {:induction false} CountedClosed(qs: Queues, steps: seq<(seq<Action>, seq<Action>)>)
    requires forall p :: p in steps ==> Counted(p.0) && Counted(p.1)
    ensures SameGets(qs, DrainClosedQueue(qs, steps).1)
    decreases |steps|, |qs.closed|
  {
    hide ApplyAll, Counted, Without;
    if qs.closed != [] {
      var s := qs.closed[0];
      var (callback, closing) := if steps == [] then ([], []) else steps[0];
      var called := ApplyAll(qs, callback);
      CountedNothing(); ApplyNothing();
      CountedApply(qs, callback);
      if s in called.closed {
        var removed := called.(closed := Without(called.closed, s));
        CountedApply(removed, closing);
        CountedClosed(ApplyAll(removed, closing), if steps == [] then [] else steps[1..]);
      }
    }
  }

  lemma {:induction false} CountedAccepted(qs: Queues, callbacks: seq<seq<Action>>)
    requires forall c :: c in callbacks ==> Counted(c)
    ensures SameGets(qs, DrainAcceptQueue(qs, callbacks).1)
    decreases |callbacks|, |qs.accept|
  {
    hide ApplyAll, Counted, Without;
    if qs.accept != [] {
      var s := qs.accept[0];
      var called := ApplyAll(qs, At(callbacks, 0));
      CountedNothing(); ApplyNothing();
      CountedApply(qs, At(callbacks, 0));
      if s in called.accept {
        CountedAccepted(called.(accept := Without(called.accept, s)), if callbacks == [] then [] else callbacks[1..]);
      }
    }
  }

  ghost predicate CountedOp(op: Operation) {
    match op
    case Do(a) => a != NextReader && a != NextWriter
    case Tx(callbacks) => forall c :: c in callbacks ==> Counted(c)
    case Rx(steps, accepts, readers) =>
      && (forall p :: p in steps ==> Counted(p.0) && Counted(p.1))
      && (forall c :: c in accepts ==> Counted(c)) && (forall c :: c in readers ==> Counted(c))
  }

  /** If get_next_reader and get_next_writer are never used, no socket is handed out by them: by the
      account of `Run`, counters that equal the list lengths at first still do at the end. */
  lemma {:induction false} CountersStayExact(qs: Queues, ops: seq<Operation>)
    requires forall op :: op in ops ==> CountedOp(op)
    ensures SameGets(qs, RunQueues(qs, ops).1)
    decreases |ops|
  {
    hide Apply, Drain, DrainClosedQueue, DrainAcceptQueue, Counted;
    if ops != [] {
      assert ops[0] in ops;
      match ops[0] {
        case Do(a) => OneGet(qs, a);
        case Tx(callbacks) => CountedDrain(qs, WriteQueue, callbacks, 0, |qs.write| + qs.writeGets);
        case Rx(steps, accepts, readers) =>
          CountedClosed(qs, steps);
          var closed := DrainClosedQueue(qs, steps).1;
          CountedAccepted(closed, accepts);
          var accepted := DrainAcceptQueue(closed, accepts).1;
          CountedDrain(accepted, ReadQueue, readers, 0, |accepted.read| + accepted.readGets);
      }
      var next := Perform(qs, ops[0]);
      if next.0 { CountersStayExact(next.1, ops[1..]); }
    }
  }

  // ----- What a bounded drain does when callbacks only raise events -----

  /** The sockets queued again during the first i callbacks of a drain of q0, in arrival order. */
  function Requeued(q0: seq<Socket>, k: Queue, callbacks: seq<seq<Action>>, i: nat): seq<Socket>
    requires i <= |q0|
  {
    if i == 0 then []
    else ArriveAll(q0[i..] + Requeued(q0, k, callbacks, i - 1), k, Events(At(callbacks, i - 1)))[|q0| - i..]
  }

  /** First come, first served: a drain with an exact counter serves the sockets queued on entry,
      once each and in order, and leaves those queued again during the pass, in arrival order. */
  lemma FirstComeFirstServed(qs: Queues, k: Queue, callbacks: seq<seq<Action>>)
    requires forall c :: c in callbacks ==> EventsOnly(c)
    ensures var (served, last) := Drain(qs, k, callbacks, 0, |qs.Get(k)|);
            served == qs.Get(k) && last.Get(k) == Requeued(qs.Get(k), k, callbacks, |qs.Get(k)|)
  {
    NothingRequeued(qs.Get(k), k, callbacks);
    ServedFrom(qs, qs.Get(k), k, callbacks, 0);
    assert qs.Get(k)[0..] == qs.Get(k);
  }

  lemma {:induction false} ServedFrom(qs: Queues, q0: seq<Socket>, k: Queue, callbacks: seq<seq<Action>>, i: nat)
    requires i <= |q0| && forall c :: c in callbacks ==> EventsOnly(c)
    requires qs.Get(k) == q0[i..] + Requeued(q0, k, callbacks, i)
    ensures var (served, last) := Drain(qs, k, callbacks, i, |q0| - i);
            served == q0[i..] && last.Get(k) == Requeued(q0, k, callbacks, |q0|)
    decreases |q0| - i
  {
    hide Requeued, ApplyAll, At, Events, ArriveAll, Queues.Gain;
    if i < |q0| {
      var callback := At(callbacks, i);
      EventsAt(callbacks, i);
      EventsGain(qs.Tail(k), callback);
      GainOf(qs.Tail(k), k, Events(callback));
      PassOver(q0, k, callbacks, i);
      ServedFrom(ApplyAll(qs.Tail(k), callback), q0, k, callbacks, i + 1);
      assert [q0[i]] + q0[i + 1..] == q0[i..];
    } else {
      assert q0[i..] == [] && [] + Requeued(q0, k, callbacks, i) == Requeued(q0, k, callbacks, i);
    }
  }

  lemma EventsAt(callbacks: seq<seq<Action>>, i: nat)
    requires forall c :: c in callbacks ==> EventsOnly(c)
    ensures EventsOnly(At(callbacks, i))
  {
  }

  lemma GainOf(qs: Queues, k: Queue, events: seq<Event>)
    ensures qs.Gain(events).Get(k) == ArriveAll(qs.Get(k), k, events)
  {
  }

  // ----- What a drain leaves behind -----

  lemma {:induction false} ArriveAllMembers(q: seq<Socket>, k: Queue, events: seq<Event>, x: Socket)
    ensures x in ArriveAll(q, k, events) <==> x in q || exists e :: e in events && Target(k, e) == x
    ensures NoDup(q) ==> NoDup(ArriveAll(q, k, events))
    decreases |events|
  {
    hide Target;
    if events != [] {
      ArriveAllMembers(Arrive(q, Target(k, events[0])), k, events[1..], x);
      assert events == [events[0]] + events[1..];
      if Target(k, events[0]) == x {}
    }
  }

  /** A socket is queued when a pass is over exactly if, in some callback of the pass, an event put
      it there while it was not waiting to be served; each such socket is queued once. */
  lemma {:induction false} RequeuedMembers(q0: seq<Socket>, k: Queue, callbacks: seq<seq<Action>>, i: nat, x: Socket)
    requires i <= |q0| && NoDup(q0)
    ensures NoDup(q0[i..] + Requeued(q0, k, callbacks, i))
    ensures x in Requeued(q0, k, callbacks, i) <==>
              exists j :: 0 <= j < i && x !in q0[j + 1..] && Raises(k, At(callbacks, j), x)
    decreases i
  {
    hide ArriveAll, Events, At, Raises, NoDup, Requeued;
    if i > 0 {
      RequeuedMembers(q0, k, callbacks, i - 1, x);
      RequeuedStep(q0, k, callbacks, i - 1, x);
    } else {
      NothingRequeued(q0, k, callbacks);
    }
  }

  lemma RequeuedStep(q0: seq<Socket>, k: Queue, callbacks: seq<seq<Action>>, i: nat, x: Socket)
    requires i < |q0| && NoDup(q0[i..] + Requeued(q0, k, callbacks, i))
    ensures NoDup(q0[i + 1..] + Requeued(q0, k, callbacks, i + 1))
    ensures x in Requeued(q0, k, callbacks, i + 1) <==>
              x in Requeued(q0, k, callbacks, i) || (x !in q0[i + 1..] && Raises(k, At(callbacks, i), x))
  {
    hide ArriveAll, Events, At, Requeued;
    var a, a' := Requeued(q0, k, callbacks, i), Requeued(q0, k, callbacks, i + 1);
    PassOver(q0, k, callbacks, i);
    var before := q0[i..] + a;
    TailNoDup(before);
    assert before[1..] == q0[i + 1..] + a;
    ArriveAllMembers(before[1..], k, Events(At(callbacks, i)), x);
    NoDupSplit(q0[i + 1..], a, x);
    NoDupSplit(q0[i + 1..], a', x);
  }

  lemma TailNoDup(q: seq<Socket>)
    requires NoDup(q) && q != []
    ensures NoDup(q[1..])
  {
  }

  lemma NoDupSplit(p: seq<Socket>, q: seq<Socket>, x: Socket)
    requires NoDup(p + q)
    ensures x in p + q <==> x in p || x in q
    ensures !(x in p && x in q)
  {
    assert forall i :: 0 <= i < |p| ==> (p + q)[i] == p[i];
    assert forall j :: 0 <= j < |q| ==> (p + q)[|p| + j] == q[j];
  }

  /** Some event among the actions targets x. */
  ghost predicate Raises(k: Queue, actions: seq<Action>, x: Socket) {
    exists e :: e in Events(actions) && Target(k, e) == x
  }

  lemma NothingRequeued(q0: seq<Socket>, k: Queue, callbacks: seq<seq<Action>>)
    ensures q0[0..] + Requeued(q0, k, callbacks, 0) == q0 && Requeued(q0, k, callbacks, 0) == []
  {
  }

  /** One socket served: what is left of the old queue, and what has been queued again. */
  lemma PassOver(q0: seq<Socket>, k: Queue, callbacks: seq<seq<Action>>, i: nat)
    requires i < |q0|
    ensures var before := q0[i..] + Requeued(q0, k, callbacks, i);
            && before[0] == q0[i] && q0[..i] + [q0[i]] == q0[..i + 1]
            && ArriveAll(before[1..], k, Events(At(callbacks, i))) == q0[i + 1..] + Requeued(q0, k, callbacks, i + 1)
  {
    hide ArriveAll, Events, At;
    var a := Requeued(q0, k, callbacks, i);
    assert (q0[i..] + a)[1..] == q0[i + 1..] + a;
    var all := ArriveAll(q0[i + 1..] + a, k, Events(At(callbacks, i)));
    assert q0[i + 1..] <= q0[i + 1..] + a <= all;
    assert Requeued(q0, k, callbacks, i + 1) == all[|q0| - (i + 1)..];
    assert all == all[..|q0| - (i + 1)] + all[|q0| - (i + 1)..];
  }
}
