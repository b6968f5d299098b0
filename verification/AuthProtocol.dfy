/** Two honest peers running the session of `AuthSession` against each other over
    first-in first-out channels, with the device authentication service as an oracle.

    Timeouts, loss of trust, failed unpacking and failed posts may happen at any point:
    the agreement and no-loss results hold whatever fails. */
module AuthProtocol {
  import opened AuthSession
  import opened Options

  datatype Net = NetDeviceId | NetAuthData | NetDeviceInfo(info: Info) | NetCloseAck

  /** The authentication service of one side: it reports the key before success. */
  datatype Hichain = Dormant | Running(keyReported: bool) | Finished(ok: bool)

  /** What a side has done so far: posted its device info, posted a close ack, given a verdict. */
  datatype Record = Record(info: bool, ack: bool, passed: bool, failed: bool)

  /** `inbox` is the session's message queue, `wire` what travels towards this side. */
  datatype Peer = Peer(sess: Session, done: Record, inbox: seq<Message>, wire: seq<Net>, hichain: Hichain)

  datatype Side = Client | Server

  datatype Setup = Setup(link: Link, clientInfo: Info, serverInfo: Info)

  datatype Sys = Sys(client: Peer, server: Peer)

  datatype Event =
    | Deliver(side: Side)
    | Process(side: Side, env: Env)
    | Transmit(side: Side)
    | ReportKey(side: Side)
    | Finish(side: Side, ok: bool)
    | TimeOut(side: Side)
    | Distrust(side: Side)

  function Other(side: Side): Side { if side == Client then Server else Client }

  function At(sys: Sys, side: Side): Peer { if side == Client then sys.client else sys.server }

  function Put(side: Side, p: Peer, q: Peer): Sys { if side == Client then Sys(p, q) else Sys(q, p) }

  function InfoOf(u: Setup, side: Side): Info { if side == Client then u.clientInfo else u.serverInfo }

  function ToMessage(m: Net): Message {
    match m
    case NetDeviceId => RecvDeviceId
    case NetAuthData => RecvAuthData
    case NetDeviceInfo(info) => RecvDeviceInfo(info)
    case NetCloseAck => RecvCloseAck
  }

  /** What a reaction puts on the wire; a reaction posts at most one message. */
  function Posts(more: seq<Action>, info: Info): seq<Net> {
    if PostDeviceId in more then [NetDeviceId]
    else if PostDeviceInfo in more then [NetDeviceInfo(info)]
    else if PostCloseAck in more then [NetCloseAck]
    else []
  }

  /** What a reaction puts back into its own queue. */
  function Replays(more: seq<Action>): seq<Message> {
    if more != [] && more[|more| - 1].Replay? then [RecvDeviceInfo(more[|more| - 1].info)] else []
  }

  function Note(r: Record, more: seq<Action>): Record {
    Record(r.info || PostDeviceInfo in more, r.ack || PostCloseAck in more, r.passed || Verdict(Passed) in more,
           r.failed || (more != [] && more[|more| - 1].Verdict? && more[|more| - 1] != Verdict(Passed)))
  }

  function Enter(p: Peer, msg: Message): Peer {
    if p.sess.isDead then p else p.(inbox := p.inbox + [msg])
  }

  /** The oracle starts with `StartAuth` on the client and with the first auth data on the server. */
  function Wake(h: Hichain, more: seq<Action>): Hichain {
    if h.Dormant? && (StartAuth in more || ProcessAuthData in more) then Running(false) else h
  }

  /** One step of the side `ev.side`, seen as the pair (that side, the other side). */
  function Move(u: Setup, p: Peer, q: Peer, ev: Event): (Peer, Peer) {
    match ev
    case Deliver(_) =>
      if p.wire == [] then (p, q) else (Enter(p.(wire := p.wire[1..]), ToMessage(p.wire[0])), q)
    case Process(side, env) =>
      if p.inbox == [] then (p, q)
      else
        var (s', more) := Handle(p.sess, p.inbox[0], env);
        (Peer(s', Note(p.done, more), p.inbox[1..] + Replays(more), p.wire, Wake(p.hichain, more)),
         q.(wire := q.wire + Posts(more, InfoOf(u, side))))
    case Transmit(_) =>
      if p.hichain.Running? && !p.sess.isDead then (p, q.(wire := q.wire + [NetAuthData])) else (p, q)
    case ReportKey(_) =>
      if p.hichain.Running? then (Enter(p, SaveSessionKey).(hichain := Running(true)), q) else (p, q)
    case Finish(_, ok) =>
      if p.hichain.Running? && (ok ==> p.hichain.keyReported) then
        (Enter(p, AuthResult(ok)).(hichain := Finished(ok)), q)
      else (p, q)
    case TimeOut(_) => (Enter(p, AuthTimeout), q)
    case Distrust(_) => (Enter(p, DeviceNotTrusted), q)
  }

  function Step(u: Setup, sys: Sys, ev: Event): Sys {
    var (p, q) := Move(u, At(sys, ev.side), At(sys, Other(ev.side)), ev);
    Put(ev.side, p, q)
  }

  function Begin(u: Setup, env: Env): Sys {
    var (c, more) := Start(u.link, false, env);
    var (s, _) := Start(u.link, true, env);
    var none := Record(false, false, false, false);
    Sys(Peer(c, Note(none, more), [], [], Dormant), Peer(s, none, [], Posts(more, u.clientInfo), Dormant))
  }

  function Run(u: Setup, env: Env, events: seq<Event>): Sys {
    if events == [] then Begin(u, env)
    else Step(u, Run(u, env, events[..|events| - 1]), events[|events| - 1])
  }

  // ------------------------------------------------------------------ invariant

  /** One side alone: how its phase, its records and what it did hang together. */
  ghost predicate Local(u: Setup, side: Side, s: Session, done: Record) {
    && s.link == u.link && s.isServer == (side == Server)
    && (s.phase == SyncDeviceInfo ==> s.saved.None? && (done.info || (u.link == Wifi && side == Server)))
    && (s.phase != SyncDeviceInfo ==> s.nodeInfo.None? && !s.closeAckReceived && !done.info && !done.ack)
    && (!s.isDead && s.nodeInfo.Some? ==> u.link != Wifi && done.ack && !s.closeAckReceived)
    && (done.ack ==> u.link != Wifi && s.nodeInfo.Some?)
    && (done.passed ==> s.nodeInfo.Some? && done.info && (u.link != Wifi ==> done.ack))
    && (u.link == Wifi && side == Server && done.info ==> done.passed)
    && (s.isDead <==> done.passed || done.failed)
  }

  /** The oracle of one side and the queue of results it feeds. */
  ghost predicate Authenticated(s: Session, h: Hichain, inbox: seq<Message>) {
    && (!h.Dormant? ==> s.phase != SyncDeviceId)
    && (s.phase == SyncDeviceInfo ==> h == Finished(true))
    && (forall ok :: AuthResult(ok) in inbox ==> h == Finished(ok))
    && (h.Finished? && !s.isDead ==> AuthResult(h.ok) in inbox || (h.ok && s.phase == SyncDeviceInfo))
  }

  /** The order in which the two sides leave the device-id phase. */
  ghost predicate Ordered(client: Peer, server: Peer) {
    && (NetDeviceId in client.wire || RecvDeviceId in client.inbox || client.sess.phase != SyncDeviceId ==>
          server.sess.phase != SyncDeviceId)
    && (NetAuthData in server.wire || RecvAuthData in server.inbox || !server.hichain.Dormant? ==>
        !client.hichain.Dormant?)
  }

  /** Every device info that p holds or that is on its way to p is i, and was posted. */
  ghost predicate InfoGenuine(p: Peer, i: Info, posted: bool) {
    && (forall j :: NetDeviceInfo(j) in p.wire ==> j == i && posted)
    && (forall j :: RecvDeviceInfo(j) in p.inbox ==> j == i && posted)
    && (p.sess.saved.Some? ==> p.sess.saved.value == i && posted)
    && (p.sess.nodeInfo.Some? ==> p.sess.nodeInfo.value == i && posted)
  }

  /** A posted device info is somewhere while its receiver lives: on the wire, queued, saved or accepted. */
  ghost predicate InfoPlaced(p: Peer, i: Info, posted: bool) {
    posted && !p.sess.isDead ==>
      NetDeviceInfo(i) in p.wire || RecvDeviceInfo(i) in p.inbox || p.sess.saved.Some? || p.sess.nodeInfo.Some?
  }

  /** Acks come only from a peer that sent one, and a sent ack is not lost while its receiver lives. */
  ghost predicate AckTracked(u: Setup, p: Peer, sent: bool) {
    && (NetCloseAck in p.wire || RecvCloseAck in p.inbox || p.sess.closeAckReceived ==> sent)
    && (u.link != Wifi && p.done.passed ==> sent)
    && (sent && !p.sess.isDead ==> NetCloseAck in p.wire || RecvCloseAck in p.inbox || p.sess.closeAckReceived)
  }

  ghost predicate Half(u: Setup, side: Side, p: Peer, q: Peer) {
    var i := InfoOf(u, Other(side));
    && Local(u, side, p.sess, p.done) && Authenticated(p.sess, p.hichain, p.inbox)
    && InfoGenuine(p, i, q.done.info) && InfoPlaced(p, i, q.done.info) && AckTracked(u, p, q.done.ack)
  }

  ghost predicate Inv(u: Setup, sys: Sys) {
    && Half(u, Client, sys.client, sys.server) && Half(u, Server, sys.server, sys.client)
    && Ordered(sys.client, sys.server)
  }

  // ------------------------------------------------------------------ every step keeps the invariant

  lemma BeginHolds(u: Setup, env: Env)
    ensures Inv(u, Begin(u, env))
  {
  }

  lemma PopIn<T>(s: seq<T>)
    requires s != []
    ensures forall x :: x in s <==> x == s[0] || x in s[1..]
  {
  }

  lemma LocalKept(u: Setup, side: Side, s: Session, done: Record, msg: Message, env: Env)
    requires Local(u, side, s, done)
    ensures var (s', more) := Handle(s, msg, env); Local(u, side, s', Note(done, more))
  {
  }

  lemma AuthenticatedKept(s: Session, h: Hichain, inbox: seq<Message>, env: Env)
    requires Authenticated(s, h, inbox) && inbox != []
    ensures var (s', more) := Handle(s, inbox[0], env);
            Authenticated(s', Wake(h, more), inbox[1..] + Replays(more))
  {
    PopIn(inbox);
  }

  /** The side that processes its next message. */
  function Processed(p: Peer, env: Env): Peer
    requires p.inbox != []
  {
    var (s', more) := Handle(p.sess, p.inbox[0], env);
    Peer(s', Note(p.done, more), p.inbox[1..] + Replays(more), p.wire, Wake(p.hichain, more))
  }

  /** Where the device info a session holds or replays comes from. */
  lemma InfoFlow(s: Session, msg: Message, env: Env)
    ensures var (s', more) := Handle(s, msg, env);
            && (s'.saved.Some? ==> s'.saved == s.saved || msg == RecvDeviceInfo(s'.saved.value))
            && (s'.nodeInfo.Some? ==> s'.nodeInfo == s.nodeInfo || msg == RecvDeviceInfo(s'.nodeInfo.value))
            && (forall m :: m in Replays(more) ==> s.saved.Some? && m == RecvDeviceInfo(s.saved.value))
  {
  }

  lemma GenuineKept(p: Peer, i: Info, posted: bool, env: Env)
    requires InfoGenuine(p, i, posted) && p.inbox != []
    ensures InfoGenuine(Processed(p, env), i, posted)
  {
    PopIn(p.inbox);
    InfoFlow(p.sess, p.inbox[0], env);
    var p' := Processed(p, env);
    assert forall m :: m in p'.inbox ==>
             m in p.inbox || (p.sess.saved.Some? && m == RecvDeviceInfo(p.sess.saved.value));
  }

  lemma PlacedKept(u: Setup, side: Side, p: Peer, i: Info, posted: bool, env: Env)
    requires InfoGenuine(p, i, posted) && InfoPlaced(p, i, posted) && Local(u, side, p.sess, p.done) && p.inbox != []
    requires posted ==> p.sess.phase != SyncDeviceId
    ensures InfoPlaced(Processed(p, env), i, posted)
  {
    PopIn(p.inbox);
  }

  lemma AckKept(u: Setup, side: Side, p: Peer, sent: bool, env: Env)
    requires AckTracked(u, p, sent) && Local(u, side, p.sess, p.done) && p.inbox != []
    requires sent ==> p.sess.phase == SyncDeviceInfo
    ensures AckTracked(u, Processed(p, env), sent)
  {
    PopIn(p.inbox);
  }

  /** The receiver q of what p posts while processing. */
  lemma ReceiverKept(u: Setup, side: Side, q: Peer, p: Peer, env: Env)
    requires Half(u, side, q, p) && p.inbox != []
    ensures var (s', more) := Handle(p.sess, p.inbox[0], env);
            Half(u, side, q.(wire := q.wire + Posts(more, InfoOf(u, Other(side)))), Processed(p, env))
  {
    var (s', more) := Handle(p.sess, p.inbox[0], env);
    PostsWhat(p.sess, p.inbox[0], env, InfoOf(u, Other(side)));
  }

  lemma PostsWhat(s: Session, msg: Message, env: Env, i: Info)
    ensures var more := Handle(s, msg, env).1;
            && (PostDeviceInfo in more <==> NetDeviceInfo(i) in Posts(more, i))
            && (forall j :: NetDeviceInfo(j) in Posts(more, i) ==> j == i)
            && (PostCloseAck in more <==> NetCloseAck in Posts(more, i))
            && NetAuthData !in Posts(more, i)
            && (NetDeviceId in Posts(more, i) ==> s.isServer && Handle(s, msg, env).0.phase == DeviceAuth)
  {
  }

  /** Neither side posts its info or an ack before the other is ready for it. */
  lemma ReadyForBoth(u: Setup, sys: Sys, side: Side)
    requires Inv(u, sys)
    ensures var p, q := At(sys, side), At(sys, Other(side));
            && (q.done.info ==> p.sess.phase != SyncDeviceId)
            && (q.done.ack ==> p.sess.phase == SyncDeviceInfo)
  {
  }

  lemma OrderKept(u: Setup, sys: Sys, side: Side, env: Env)
    requires Inv(u, sys) && At(sys, side).inbox != []
    ensures var sys' := Step(u, sys, Process(side, env)); Ordered(sys'.client, sys'.server)
  {
    var p := At(sys, side);
    PopIn(p.inbox);
    PostsWhat(p.sess, p.inbox[0], env, InfoOf(u, side));
    PhaseAndOracle(p, env);
  }

  /** How processing moves the phase and the oracle, and what it can queue again. */
  lemma PhaseAndOracle(p: Peer, env: Env)
    requires p.inbox != []
    ensures var p' := Processed(p, env);
            && (p.sess.phase != SyncDeviceId ==> p'.sess.phase != SyncDeviceId)
            && (p'.sess.phase != SyncDeviceId ==> p.sess.phase != SyncDeviceId || p.inbox[0] == RecvDeviceId)
            && (!p.hichain.Dormant? ==> p'.hichain == p.hichain)
            && (!p'.hichain.Dormant? ==>
                  !p.hichain.Dormant? || (p.inbox[0] == RecvDeviceId && !p.sess.isServer) || p.inbox[0] == RecvAuthData)
            && (forall m :: m in p'.inbox ==> m in p.inbox[1..] || m.RecvDeviceInfo?)
            && p'.wire == p.wire
  {
  }

  /** The side that processes keeps its half. */
  lemma ProcessedHalf(u: Setup, side: Side, p: Peer, q: Peer, env: Env)
    requires Half(u, side, p, q) && p.inbox != []
    requires (q.done.info ==> p.sess.phase != SyncDeviceId) && (q.done.ack ==> p.sess.phase == SyncDeviceInfo)
    ensures Half(u, side, Processed(p, env), q)
  {
    var i := InfoOf(u, Other(side));
    LocalKept(u, side, p.sess, p.done, p.inbox[0], env);
    AuthenticatedKept(p.sess, p.hichain, p.inbox, env);
    GenuineKept(p, i, q.done.info, env);
    PlacedKept(u, side, p, i, q.done.info, env);
    AckKept(u, side, p, q.done.ack, env);
  }

  /** What another side posts does not disturb a half that looks only at its records. */
  lemma HalfLooksAtRecords(u: Setup, side: Side, p: Peer, q: Peer, q': Peer)
    requires Half(u, side, p, q) && q'.done == q.done
    ensures Half(u, side, p, q')
  {
  }

  lemma ProcessKeeps(u: Setup, sys: Sys, side: Side, env: Env, sys': Sys)
    requires Inv(u, sys) && sys' == Step(u, sys, Process(side, env))
    ensures Inv(u, sys')
  {
    var p, q := At(sys, side), At(sys, Other(side));
    if p.inbox != [] {
      ReadyForBoth(u, sys, side);
      ProcessedHalf(u, side, p, q, env);
      ReceiverKept(u, Other(side), q, p, env);
      OrderKept(u, sys, side, env);
      HalfLooksAtRecords(u, side, At(sys', side), q, At(sys', Other(side)));
    }
  }

  /** The side that takes the next message from the wire. */
  function Arrived(p: Peer): Peer
    requires p.wire != []
  {
    Enter(p.(wire := p.wire[1..]), ToMessage(p.wire[0]))
  }

  /** Delivery moves one message from the wire into the queue of a live session. */
  lemma ArrivedMembers(p: Peer)
    requires p.wire != []
    ensures var p', n := Arrived(p), p.wire[0];
            && (forall x :: x in p.wire <==> x == n || x in p'.wire)
            && (forall x :: x in p'.inbox <==> x in p.inbox || (x == ToMessage(n) && !p.sess.isDead))
            && p'.sess == p.sess && p'.done == p.done && p'.hichain == p.hichain
  {
    PopIn(p.wire);
  }

  lemma AuthenticatedArrived(p: Peer)
    requires p.wire != [] && Authenticated(p.sess, p.hichain, p.inbox)
    ensures Authenticated(p.sess, p.hichain, Arrived(p).inbox)
  {
    ArrivedMembers(p);
  }

  lemma GenuineArrived(p: Peer, i: Info, posted: bool)
    requires p.wire != [] && InfoGenuine(p, i, posted)
    ensures InfoGenuine(Arrived(p), i, posted)
  {
    ArrivedMembers(p);
  }

  lemma PlacedArrived(p: Peer, i: Info, posted: bool)
    requires p.wire != [] && InfoPlaced(p, i, posted)
    ensures InfoPlaced(Arrived(p), i, posted)
  {
    ArrivedMembers(p);
  }

  lemma AckArrived(u: Setup, p: Peer, sent: bool)
    requires p.wire != [] && AckTracked(u, p, sent)
    ensures AckTracked(u, Arrived(p), sent)
  {
    ArrivedMembers(p);
  }

  lemma OrderedArrived(client: Peer, server: Peer)
    requires Ordered(client, server)
    ensures client.wire != [] ==> Ordered(Arrived(client), server)
    ensures server.wire != [] ==> Ordered(client, Arrived(server))
  {
    if client.wire != [] { ArrivedMembers(client); }
    if server.wire != [] { ArrivedMembers(server); }
  }

  lemma DeliverKeeps(u: Setup, sys: Sys, side: Side, sys': Sys)
    requires Inv(u, sys) && sys' == Step(u, sys, Deliver(side))
    ensures Inv(u, sys')
  {
    var p, q, i := At(sys, side), At(sys, Other(side)), InfoOf(u, Other(side));
    if p.wire != [] {
      AuthenticatedArrived(p);
      GenuineArrived(p, i, q.done.info);
      PlacedArrived(p, i, q.done.info);
      AckArrived(u, p, q.done.ack);
      OrderedArrived(sys.client, sys.server);
      ArrivedMembers(p);
      assert sys' == Put(side, Arrived(p), q);
      assert Half(u, side, Arrived(p), q) && Half(u, Other(side), q, Arrived(p));
    }
  }

  /** What the oracle, the timer and the trust listener put into a queue concerns no device info and no ack. */
  lemma EnterKeeps(u: Setup, side: Side, p: Peer, q: Peer, m: Message, h: Hichain)
    requires Half(u, side, p, q) && Half(u, Other(side), q, p)
    requires m == AuthTimeout || m == DeviceNotTrusted || m == SaveSessionKey || (m.AuthResult? && h == Finished(m.ok))
    requires h == p.hichain || (p.hichain.Running? && (h.Running? || (m.AuthResult? && h == Finished(m.ok))))
    requires m.AuthResult? ==> p.hichain.Running?
    ensures var p' := Enter(p, m).(hichain := h); Half(u, side, p', q) && Half(u, Other(side), q, p')
  {
    var p' := Enter(p, m).(hichain := h);
    assert forall x :: x in p'.inbox ==> x in p.inbox || x == m;
    assert forall x :: x in p.inbox ==> x in p'.inbox;
  }

  /** An entry into one queue, in the system. */
  lemma EntryKeeps(u: Setup, sys: Sys, side: Side, m: Message, h: Hichain, sys': Sys)
    requires Inv(u, sys)
    requires m == AuthTimeout || m == DeviceNotTrusted || m == SaveSessionKey || (m.AuthResult? && h == Finished(m.ok))
    requires var p := At(sys, side);
             h == p.hichain || (p.hichain.Running? && (h.Running? || (m.AuthResult? && h == Finished(m.ok))))
    requires m.AuthResult? ==> At(sys, side).hichain.Running?
    requires sys' == Put(side, Enter(At(sys, side), m).(hichain := h), At(sys, Other(side)))
    ensures Inv(u, sys')
  {
    var p, p' := At(sys, side), At(sys', side);
    EnterKeeps(u, side, p, At(sys, Other(side)), m, h);
    assert p'.wire == p.wire && p'.sess == p.sess && (p'.hichain.Dormant? <==> p.hichain.Dormant?);
    assert forall x :: x in p'.inbox ==> x in p.inbox || x == m;
  }

  lemma TransmitKeeps(u: Setup, sys: Sys, side: Side, sys': Sys)
    requires Inv(u, sys) && sys' == Step(u, sys, Transmit(side))
    ensures Inv(u, sys')
  {
    var p, q, q' := At(sys, side), At(sys, Other(side)), At(sys', Other(side));
    assert q' == q.(wire := q'.wire) && At(sys', side) == p;
    assert forall x :: x in q'.wire ==> x in q.wire || (x == NetAuthData && p.hichain.Running?);
    assert forall x :: x in q.wire ==> x in q'.wire;
  }

  lemma OutsideKeeps(u: Setup, sys: Sys, ev: Event, sys': Sys)
    requires Inv(u, sys) && !ev.Process? && !ev.Deliver? && sys' == Step(u, sys, ev)
    ensures Inv(u, sys')
  {
    var p := At(sys, ev.side);
    match ev
    case TimeOut(side) => EntryKeeps(u, sys, side, AuthTimeout, p.hichain, sys');
    case Distrust(side) => EntryKeeps(u, sys, side, DeviceNotTrusted, p.hichain, sys');
    case ReportKey(side) => if p.hichain.Running? { EntryKeeps(u, sys, side, SaveSessionKey, Running(true), sys'); }
    case Finish(side, ok) => if sys' != sys { EntryKeeps(u, sys, side, AuthResult(ok), Finished(ok), sys'); }
    case Transmit(side) => TransmitKeeps(u, sys, side, sys');
  }

  lemma StepKeeps(u: Setup, sys: Sys, ev: Event)
    requires Inv(u, sys)
    ensures Inv(u, Step(u, sys, ev))
  {
    match ev
    case Process(side, env) => ProcessKeeps(u, sys, side, env, Step(u, sys, ev));
    case Deliver(side) => DeliverKeeps(u, sys, side, Step(u, sys, ev));
    case _ => OutsideKeeps(u, sys, ev, Step(u, sys, ev));
  }

  lemma {:induction false} RunKeeps(u: Setup, env: Env, events: seq<Event>)
    ensures Inv(u, Run(u, env, events))
  {
    if events == [] {
      BeginHolds(u, env);
    } else {
      var n := |events| - 1;
      RunKeeps(u, env, events[..n]);
      StepKeeps(u, Run(u, env, events[..n]), events[n]);
    }
  }

  // ------------------------------------------------------------------ what every run guarantees

  /** Off WiFi, when one side passes, the other has accepted this side's device info and sent its ack. */
  lemma PassMeansAccepted(u: Setup, env: Env, events: seq<Event>, side: Side)
    requires u.link != Wifi && At(Run(u, env, events), side).done.passed
    ensures var q := At(Run(u, env, events), Other(side));
            q.sess.nodeInfo == Some(InfoOf(u, side)) && q.done.ack
  {
    RunKeeps(u, env, events);
  }

  /** On WiFi, when the client passes, the server has passed, and each holds the other's device info. */
  lemma WifiClientPassMeansServerPassed(u: Setup, env: Env, events: seq<Event>)
    requires u.link == Wifi && Run(u, env, events).client.done.passed
    ensures var sys := Run(u, env, events);
            && sys.server.done.passed && !sys.server.done.failed
            && sys.server.sess.nodeInfo == Some(u.clientInfo) && sys.client.sess.nodeInfo == Some(u.serverInfo)
  {
    RunKeeps(u, env, events);
    RunOneVerdict(u, env, events, Server);
  }

  /** A side that passed never failed, and the other way round. */
  lemma {:induction false} RunOneVerdict(u: Setup, env: Env, events: seq<Event>, side: Side)
    ensures var p := At(Run(u, env, events), side); !(p.done.passed && p.done.failed)
  {
    if events != [] {
      var n := |events| - 1;
      RunOneVerdict(u, env, events[..n], side);
      RunKeeps(u, env, events[..n]);
      var p := At(Run(u, env, events[..n]), side);
      if events[n].Process? && events[n].side == side && p.inbox != [] {
        OneVerdictKept(p, events[n].env);
      }
    }
  }

  lemma OneVerdictKept(p: Peer, env: Env)
    requires !(p.done.passed && p.done.failed) && p.inbox != []
    requires p.sess.isDead <==> p.done.passed || p.done.failed
    ensures var p' := Processed(p, env); !(p'.done.passed && p'.done.failed)
  {
  }

  lemma FailedStep(u: Setup, sys: Sys, ev: Event, side: Side, sys': Sys)
    requires At(sys, side).done.failed && sys' == Step(u, sys, ev)
    ensures At(sys', side).done.failed
  {
  }

  lemma LastEvent(u: Setup, env: Env, events: seq<Event>, later: seq<Event>)
    requires later != []
    ensures Run(u, env, events + later) == Step(u, Run(u, env, events + later[..|later| - 1]), later[|later| - 1])
  {
    assert (events + later)[..|events + later| - 1] == events + later[..|later| - 1];
  }

  lemma {:induction false} FailureIsFinal(u: Setup, env: Env, events: seq<Event>, later: seq<Event>, side: Side)
    requires At(Run(u, env, events), side).done.failed
    ensures At(Run(u, env, events + later), side).done.failed
    decreases later
  {
    if later == [] {
      assert events + later == events;
    } else {
      var n := |later| - 1;
      FailureIsFinal(u, env, events, later[..n], side);
      LastEvent(u, env, events, later);
      FailedStep(u, Run(u, env, events + later[..n]), later[n], side, Run(u, env, events + later));
    }
  }

  lemma OutcastFails(p: Peer, env: Env)
    requires !p.sess.isDead && p.inbox != [] && (p.inbox[0] == DeviceNotTrusted || p.inbox[0] == AuthTimeout)
    ensures Processed(p, env).done.failed
  {
  }

  /** A live side that takes a loss of trust or a timeout from its queue has failed, and it never
      passes, whatever happens later. */
  lemma DistrustIsFinal(u: Setup, env: Env, events: seq<Event>, side: Side, e: Env, later: seq<Event>)
    requires var p := At(Run(u, env, events), side);
             !p.sess.isDead && p.inbox != [] && (p.inbox[0] == DeviceNotTrusted || p.inbox[0] == AuthTimeout)
    ensures var p := At(Run(u, env, events + [Process(side, e)] + later), side);
            p.done.failed && !p.done.passed && p.sess.isDead
  {
    var more := events + [Process(side, e)];
    assert more[..|more| - 1] == events && more[|more| - 1] == Process(side, e);
    OutcastFails(At(Run(u, env, events), side), e);
    FailureIsFinal(u, env, more, later, side);
    RunOneVerdict(u, env, more + later, side);
    RunKeeps(u, env, more + later);
  }

  /** What an event puts into the queue of a side and onto a wire, apart from processing. */
  lemma EntriesExactly(u: Setup, sys: Sys, ev: Event, sys': Sys)
    requires sys' == Step(u, sys, ev) && !ev.Process?
    ensures var p, p', q, q' := At(sys, ev.side), At(sys', ev.side), At(sys, Other(ev.side)), At(sys', Other(ev.side));
            && p'.sess == p.sess && p'.done == p.done && q' == q.(wire := q'.wire)
            && p.inbox <= p'.inbox && (p.sess.isDead ==> p'.inbox == p.inbox)
            && p'.wire == (if ev.Deliver? && p.wire != [] then p.wire[1..] else p.wire)
            && q'.wire == q.wire + (if ev.Transmit? && p.hichain.Running? && !p.sess.isDead then [NetAuthData] else [])
            && (!p.sess.isDead ==>
                  match ev
                  case Distrust(_) => p'.inbox == p.inbox + [DeviceNotTrusted]
                  case TimeOut(_) => p'.inbox == p.inbox + [AuthTimeout]
                  case Deliver(_) => p.wire != [] ==> p'.inbox == p.inbox + [ToMessage(p.wire[0])]
                  case ReportKey(_) => p.hichain.Running? ==> p'.inbox == p.inbox + [SaveSessionKey]
                  case Finish(_, ok) => p.hichain == Running(true) ==> p'.inbox == p.inbox + [AuthResult(ok)]
                  case _ => p'.inbox == p.inbox)
  {
  }

  /** The side is over, or its k-th queued message is going to end it. */
  predicate Doomed(p: Peer, k: nat) {
    p.sess.isDead || (k < |p.inbox| && (p.inbox[k] == DeviceNotTrusted || p.inbox[k] == AuthTimeout))
  }

  lemma DoomedProcess(p: Peer, k: nat, env: Env, p': Peer)
    requires Doomed(p, k) && p.inbox != [] && p' == Processed(p, env)
    ensures if k == 0 then p'.sess.isDead else Doomed(p', k - 1)
  {
  }

  lemma DoomedStep(u: Setup, sys: Sys, side: Side, k: nat, env: Env, sys': Sys)
    requires Doomed(At(sys, side), k) && sys' == Step(u, sys, Process(side, env))
    ensures if k == 0 then At(sys', side).sess.isDead else Doomed(At(sys', side), k - 1)
  {
    var p := At(sys, side);
    if p.inbox != [] { DoomedProcess(p, k, env, Processed(p, env)); }
  }

  /** The side processes its queue, once for each of the outcomes. */
  function ProcessAll(u: Setup, sys: Sys, side: Side, outcomes: seq<Env>): Sys
    decreases outcomes
  {
    if outcomes == [] then sys else ProcessAll(u, Step(u, sys, Process(side, outcomes[0])), side, outcomes[1..])
  }

  lemma {:induction false} DoomFollows(u: Setup, sys: Sys, side: Side, k: nat, outcomes: seq<Env>)
    requires Doomed(At(sys, side), k) && |outcomes| == k + 1
    ensures At(ProcessAll(u, sys, side, outcomes), side).sess.isDead
    decreases k
  {
    var sys' := Step(u, sys, Process(side, outcomes[0]));
    DoomedStep(u, sys, side, k, outcomes[0], sys');
    if k > 0 {
      DoomFollows(u, sys', side, k - 1, outcomes[1..]);
    } else {
      assert outcomes[1..] == [];
    }
  }

  /** When a live side loses trust, or its timer runs out, it is over at the latest when it has
      processed what was queued before and this message, whatever the outcomes. */
  lemma DistrustTakesEffect(u: Setup, env: Env, events: seq<Event>, side: Side, ev: Event, outcomes: seq<Env>)
    requires ev == Distrust(side) || ev == TimeOut(side)
    requires var p := At(Run(u, env, events), side); !p.sess.isDead && |outcomes| == |p.inbox| + 1
    ensures At(ProcessAll(u, Run(u, env, events + [ev]), side, outcomes), side).sess.isDead
  {
    var sys, sys' := Run(u, env, events), Run(u, env, events + [ev]);
    assert (events + [ev])[..|events|] == events;
    EntriesExactly(u, sys, ev, sys');
    DoomFollows(u, sys', side, |At(sys, side).inbox|, outcomes);
  }

  /** A live session is ready for the device info and for the close ack it takes from its queue:
      the info finds it authenticating or later, the ack finds it in the device-info phase. */
  lemma NothingArrivesTooSoon(u: Setup, env: Env, events: seq<Event>, side: Side)
    ensures var p := At(Run(u, env, events), side);
            p.inbox != [] ==>
              && (p.inbox[0].RecvDeviceInfo? ==> p.sess.phase != SyncDeviceId)
              && (p.inbox[0].RecvCloseAck? ==> p.sess.phase == SyncDeviceInfo)
  {
    RunKeeps(u, env, events);
    ReadyForBoth(u, Run(u, env, events), side);
    var p := At(Run(u, env, events), side);
    if p.inbox != [] { assert p.inbox[0] in p.inbox; }
  }

  /** A posted device info or close ack is never lost on a live receiver: the info is on the wire,
      queued, saved or accepted, and the ack is on the wire, queued or recorded. */
  lemma NothingIsLost(u: Setup, env: Env, events: seq<Event>, side: Side)
    ensures var sys := Run(u, env, events); var p, q := At(sys, side), At(sys, Other(side));
            !p.sess.isDead ==>
              && (q.done.info ==>
                    NetDeviceInfo(InfoOf(u, Other(side))) in p.wire ||
                    RecvDeviceInfo(InfoOf(u, Other(side))) in p.inbox ||
                    p.sess.saved == Some(InfoOf(u, Other(side))) || p.sess.nodeInfo == Some(InfoOf(u, Other(side))))
              && (q.done.ack ==> NetCloseAck in p.wire || RecvCloseAck in p.inbox || p.sess.closeAckReceived)
  {
    RunKeeps(u, env, events);
  }

  lemma ReplayOf(p: Peer, env: Env)
    requires p.inbox != [] && p.sess.phase == DeviceAuth && p.sess.saved.Some?
    ensures var p' := Processed(p, env);
            p'.sess.phase == SyncDeviceInfo ==>
              p'.inbox == p.inbox[1..] + [RecvDeviceInfo(p.sess.saved.value)] && p'.sess.saved.None?
  {
  }

  /** In every run, what a live side has saved is the other side's device info, it was posted, and it
      was saved while authenticating; the reaction that enters the device-info phase queues it again. */
  lemma EarlyInfoIsReplayed(u: Setup, env: Env, events: seq<Event>, side: Side, e: Env)
    requires At(Run(u, env, events), side).sess.saved.Some? && !At(Run(u, env, events), side).sess.isDead
    ensures var sys, sys' := Run(u, env, events), Run(u, env, events + [Process(side, e)]);
            var p, p', q, i := At(sys, side), At(sys', side), At(sys, Other(side)), InfoOf(u, Other(side));
            && p.sess.saved == Some(i) && q.done.info && p.sess.phase == DeviceAuth
            && (p'.sess.phase == SyncDeviceInfo ==> p.inbox != [] && p'.inbox == p.inbox[1..] + [RecvDeviceInfo(i)])
  {
    var sys := Run(u, env, events);
    RunKeeps(u, env, events);
    ReadyForBoth(u, sys, side);
    assert (events + [Process(side, e)])[..|events|] == events;
    if At(sys, side).inbox != [] { ReplayOf(At(sys, side), e); }
  }

  // ------------------------------------------------------------------ the key comes first

  /** The next reaction of a side takes the session key. */
  predicate TakesKey(p: Peer) {
    p.inbox != [] && p.inbox[0] == SaveSessionKey && !p.sess.isDead && p.sess.phase == DeviceAuth
  }

  /** A side has reacted to its session key, storing it or failing to. */
  predicate KeyTaken(u: Setup, env: Env, events: seq<Event>, side: Side) {
    if events == [] then false
    else
      var n := |events| - 1;
      KeyTaken(u, env, events[..n], side)
      || (events[n].Process? && events[n].side == side && TakesKey(At(Run(u, env, events[..n]), side)))
  }

  /** Every queued success comes behind a queued key. */
  ghost predicate KeyAhead(inbox: seq<Message>) {
    forall j :: 0 <= j < |inbox| && inbox[j] == AuthResult(true) ==> SaveSessionKey in inbox[..j]
  }

  ghost predicate KeyFirst(p: Peer, taken: bool) {
    && (p.sess.phase == SyncDeviceInfo ==> taken)
    && (SaveSessionKey in p.inbox ==> !p.hichain.Dormant?)
    && (!p.sess.isDead && !taken ==> KeyAhead(p.inbox) && (p.hichain == Running(true) ==> SaveSessionKey in p.inbox))
  }

  lemma PopKeyAhead(inbox: seq<Message>)
    requires KeyAhead(inbox) && inbox != [] && inbox[0] != SaveSessionKey
    ensures KeyAhead(inbox[1..]) && inbox[0] != AuthResult(true)
  {
    forall j | 0 <= j < |inbox| - 1 && inbox[1..][j] == AuthResult(true) ensures SaveSessionKey in inbox[1..][..j] {
      assert inbox[j + 1] == AuthResult(true) && inbox[..j + 1] == [inbox[0]] + inbox[1..][..j];
    }
  }

  lemma PushKeyAhead(inbox: seq<Message>, m: Message)
    requires KeyAhead(inbox) && (m == AuthResult(true) ==> SaveSessionKey in inbox)
    ensures KeyAhead(inbox + [m])
  {
    forall j | 0 <= j <= |inbox| && (inbox + [m])[j] == AuthResult(true) ensures SaveSessionKey in (inbox + [m])[..j] {
      assert (inbox + [m])[..j] == inbox[..j];
      assert inbox[..|inbox|] == inbox;
    }
  }

  lemma KeyFirstProcessed(p: Peer, env: Env, taken: bool)
    requires KeyFirst(p, taken) && Authenticated(p.sess, p.hichain, p.inbox) && p.inbox != []
    ensures KeyFirst(Processed(p, env), taken || TakesKey(p))
  {
    PopIn(p.inbox);
    PhaseAndOracle(p, env);
    EntersInfoPhase(p, env);
    ReplaysOnlyThere(p, env);
    if !p.sess.isDead && !taken && p.inbox[0] != SaveSessionKey { PopKeyAhead(p.inbox); }
  }

  /** Only a successful result leads into the device-info phase. */
  lemma EntersInfoPhase(p: Peer, env: Env)
    requires p.inbox != []
    ensures var p' := Processed(p, env);
            p'.sess.phase == SyncDeviceInfo && p.sess.phase != SyncDeviceInfo ==> p.inbox[0] == AuthResult(true)
  {
  }

  /** Only on entering the device-info phase is anything replayed, and the dead stay dead. */
  lemma ReplaysOnlyThere(p: Peer, env: Env)
    requires p.inbox != []
    ensures var p' := Processed(p, env);
            (p'.sess.phase == SyncDeviceInfo || p'.inbox == p.inbox[1..]) && (p.sess.isDead ==> p'.sess.isDead)
  {
  }

  lemma KeyFirstEnter(p: Peer, m: Message, h: Hichain, taken: bool)
    requires KeyFirst(p, taken) && (m == SaveSessionKey ==> h == Running(true)) && (p.hichain.Dormant? || !h.Dormant?)
    requires m == AuthResult(true) ==> p.hichain == Running(true)
    requires m != SaveSessionKey && h == Running(true) ==> p.hichain == Running(true)
    ensures KeyFirst(Enter(p, m).(hichain := h), taken)
  {
    if !p.sess.isDead && !taken { PushKeyAhead(p.inbox, m); }
  }

  lemma KeyFirstStep(u: Setup, p: Peer, q: Peer, ev: Event, taken: bool)
    requires KeyFirst(p, taken) && Authenticated(p.sess, p.hichain, p.inbox)
    ensures KeyFirst(Move(u, p, q, ev).0, taken || (ev.Process? && TakesKey(p)))
  {
    match ev
    case Deliver(_) =>
      if p.wire != [] { KeyFirstEnter(p.(wire := p.wire[1..]), ToMessage(p.wire[0]), p.hichain, taken); }
    case Process(_, env) => if p.inbox != [] { KeyFirstProcessed(p, env, taken); }
    case Transmit(_) =>
    case ReportKey(_) => if p.hichain.Running? { KeyFirstEnter(p, SaveSessionKey, Running(true), taken); }
    case Finish(_, ok) =>
      if p.hichain.Running? && (ok ==> p.hichain.keyReported) { KeyFirstEnter(p, AuthResult(ok), Finished(ok), taken); }
    case TimeOut(_) => KeyFirstEnter(p, AuthTimeout, p.hichain, taken);
    case Distrust(_) => KeyFirstEnter(p, DeviceNotTrusted, p.hichain, taken);
  }

  lemma {:induction false} RunKeyFirst(u: Setup, env: Env, events: seq<Event>, side: Side)
    ensures KeyFirst(At(Run(u, env, events), side), KeyTaken(u, env, events, side))
  {
    if events != [] {
      var n := |events| - 1;
      var sys, ev := Run(u, env, events[..n]), events[n];
      RunKeyFirst(u, env, events[..n], side);
      RunKeeps(u, env, events[..n]);
      if ev.side == side {
        KeyFirstStep(u, At(sys, side), At(sys, Other(side)), ev, KeyTaken(u, env, events[..n], side));
      } else {
        OtherSideKept(u, sys, ev);
      }
    }
  }

  /** A step of one side touches only the wire of the other. */
  lemma OtherSideKept(u: Setup, sys: Sys, ev: Event)
    ensures var q, q' := At(sys, Other(ev.side)), At(Step(u, sys, ev), Other(ev.side)); q' == q.(wire := q'.wire)
  {
  }

  /** In every run a side posts its device info, accepts the other's and sends an ack only after it
      has reacted to its session key. */
  lemma KeyComesFirst(u: Setup, env: Env, events: seq<Event>, side: Side)
    ensures var p := At(Run(u, env, events), side);
            p.done.info || p.done.ack || p.done.passed || p.sess.nodeInfo.Some? ==> KeyTaken(u, env, events, side)
  {
    RunKeyFirst(u, env, events, side);
    RunKeeps(u, env, events);
  }

  ghost predicate Quiet(sys: Sys) {
    && sys.client.wire == [] && sys.client.inbox == [] && sys.server.wire == [] && sys.server.inbox == []
    && sys.client.hichain == Finished(true) && sys.server.hichain == Finished(true)
  }

  lemma QuietSideDead(u: Setup, sys: Sys, side: Side)
    requires Inv(u, sys) && Quiet(sys) && !At(sys, Other(side)).done.failed
    ensures At(sys, side).sess.isDead
  {
    var p, q := At(sys, side), At(sys, Other(side));
    assert Half(u, side, p, q) && Half(u, Other(side), q, p);
    assert q.sess.phase == SyncDeviceInfo;
    assert !p.sess.isDead ==> p.sess.phase == SyncDeviceInfo;
    assert !p.sess.isDead && u.link != Wifi ==> p.sess.nodeInfo.Some? && q.sess.nodeInfo.Some? && q.done.ack;
    assert !p.sess.isDead && u.link == Wifi && side == Client ==> p.done.info && q.sess.isDead;
  }

  /** No deadlock: once both authentications succeeded and every queue and wire is empty, a run in
      which nothing failed has passed on both sides. */
  lemma QuietMeansBothPassed(u: Setup, env: Env, events: seq<Event>)
    requires Quiet(Run(u, env, events))
    requires !Run(u, env, events).client.done.failed && !Run(u, env, events).server.done.failed
    ensures Run(u, env, events).client.done.passed && Run(u, env, events).server.done.passed
  {
    RunKeeps(u, env, events);
    QuietSideDead(u, Run(u, env, events), Client);
    QuietSideDead(u, Run(u, env, events), Server);
  }

  /** Nothing goes wrong outside: posts and unpacking succeed, no timeout, no loss of trust, no failed
      authentication. */
  predicate Smooth(ev: Event) {
    match ev
    case Process(_, env) => env.processOk && env.postOk
    case Finish(_, ok) => ok
    case TimeOut(_) => false
    case Distrust(_) => false
    case _ => true
  }

  predicate Untroubled(p: Peer) {
    !p.done.failed && AuthTimeout !in p.inbox && DeviceNotTrusted !in p.inbox && AuthResult(false) !in p.inbox
  }

  lemma ProcessUntroubled(p: Peer, env: Env)
    requires Untroubled(p) && p.inbox != [] && env == Env(true, true) && p.sess.link != OtherLink
    ensures Untroubled(Processed(p, env))
  {
    PopIn(p.inbox);
    PhaseAndOracle(p, env);
  }

  lemma EnterUntroubled(p: Peer, m: Message, h: Hichain)
    requires Untroubled(p) && m != AuthTimeout && m != DeviceNotTrusted && m != AuthResult(false)
    ensures Untroubled(Enter(p, m).(hichain := h))
  {
  }

  lemma StepUntroubled(u: Setup, p: Peer, q: Peer, ev: Event)
    requires Untroubled(p) && Untroubled(q) && Smooth(ev) && p.sess.link != OtherLink
    ensures var (p', q') := Move(u, p, q, ev); Untroubled(p') && Untroubled(q')
  {
    match ev
    case Process(_, env) => if p.inbox != [] { ProcessUntroubled(p, env); }
    case Deliver(_) => if p.wire != [] { EnterUntroubled(p.(wire := p.wire[1..]), ToMessage(p.wire[0]), p.hichain); }
    case ReportKey(_) => EnterUntroubled(p, SaveSessionKey, Running(true));
    case Finish(_, ok) => EnterUntroubled(p, AuthResult(true), Finished(true));
    case Transmit(_) =>
  }

  lemma {:induction false} SmoothRunsDoNotFail(u: Setup, events: seq<Event>)
    requires u.link != OtherLink && forall i :: 0 <= i < |events| ==> Smooth(events[i])
    ensures var sys := Run(u, Env(true, true), events); Untroubled(sys.client) && Untroubled(sys.server)
  {
    if events != [] {
      var n, env := |events| - 1, Env(true, true);
      SmoothRunsDoNotFail(u, events[..n]);
      RunKeeps(u, env, events[..n]);
      var sys, ev := Run(u, env, events[..n]), events[n];
      StepUntroubled(u, At(sys, ev.side), At(sys, Other(ev.side)), ev);
    }
  }

  /** In a smooth run that has come to rest, both sides passed. */
  lemma SmoothRunsPass(u: Setup, events: seq<Event>)
    requires u.link != OtherLink && forall i :: 0 <= i < |events| ==> Smooth(events[i])
    requires Quiet(Run(u, Env(true, true), events))
    ensures var sys := Run(u, Env(true, true), events); sys.client.done.passed && sys.server.done.passed
  {
    SmoothRunsDoNotFail(u, events);
    QuietMeansBothPassed(u, Env(true, true), events);
  }

  // ------------------------------------------------------------------ smooth runs can always be completed

  const FINE: Env := Env(true, true)

  predicate AllSmooth(events: seq<Event>) {
    forall i :: 0 <= i < |events| ==> Smooth(events[i])
  }

  /** One more event of a smooth run. */
  lemma Go(u: Setup, events: seq<Event>, ev: Event) returns (more: seq<Event>)
    requires AllSmooth(events) && Smooth(ev)
    ensures events <= more && AllSmooth(more) && Run(u, FINE, more) == Step(u, Run(u, FINE, events), ev)
  {
    more := events + [ev];
    assert more[..|more| - 1] == events;
  }

  /** The client's device id, or the server's answer to it, is on its way to a side that takes it. */
  ghost predicate IdUnderway(client: Peer, server: Peer) {
    || NetDeviceId in client.wire || RecvDeviceId in client.inbox
    || (server.sess.phase == SyncDeviceId && (NetDeviceId in server.wire || RecvDeviceId in server.inbox))
  }

  /** What smooth runs keep beside the invariant. */
  ghost predicate Going(client: Peer, server: Peer) {
    && Untroubled(client) && Untroubled(server)
    && client.hichain != Finished(false) && server.hichain != Finished(false)
    && (client.hichain.Dormant? ==> client.sess.phase == SyncDeviceId)
    && (client.sess.phase == SyncDeviceId ==> IdUnderway(client, server))
  }

  /** Only a side that passed is dead, and it is in the last phase. */
  lemma OnlyPassedAreDead(u: Setup, sys: Sys, side: Side)
    requires Inv(u, sys) && Untroubled(At(sys, side))
    ensures At(sys, side).sess.isDead ==> At(sys, side).sess.phase == SyncDeviceInfo
  {
  }

  lemma ProcessClientGoing(u: Setup, sys: Sys, sys': Sys)
    requires Inv(u, sys) && Going(sys.client, sys.server) && sys' == Step(u, sys, Process(Client, FINE))
    ensures sys'.client.hichain != Finished(false) && (sys'.client.hichain.Dormant? ==>
        sys'.client.sess.phase == SyncDeviceId)
    ensures sys'.client.sess.phase == SyncDeviceId ==> IdUnderway(sys'.client, sys'.server)
  {
    var p := sys.client;
    OnlyPassedAreDead(u, sys, Client);
    if p.inbox != [] {
      PopIn(p.inbox);
      PhaseAndOracle(p, FINE);
      ReplaysOnlyThere(p, FINE);
    }
  }

  lemma ProcessServerGoing(u: Setup, sys: Sys, sys': Sys)
    requires Inv(u, sys) && Going(sys.client, sys.server) && sys' == Step(u, sys, Process(Server, FINE))
    ensures sys'.server.hichain != Finished(false)
    ensures sys'.client.sess.phase == SyncDeviceId ==> IdUnderway(sys'.client, sys'.server)
  {
    var p := sys.server;
    OnlyPassedAreDead(u, sys, Server);
    if p.inbox != [] {
      PopIn(p.inbox);
      PhaseAndOracle(p, FINE);
      ReplaysOnlyThere(p, FINE);
      if p.sess.phase == SyncDeviceId && p.inbox[0] == RecvDeviceId {
        assert Posts(Handle(p.sess, p.inbox[0], FINE).1, u.serverInfo) == [NetDeviceId];
      }
    }
  }

  lemma DeliverGoing(u: Setup, sys: Sys, side: Side, sys': Sys)
    requires Inv(u, sys) && Going(sys.client, sys.server) && sys' == Step(u, sys, Deliver(side))
    ensures sys'.client.sess.phase == SyncDeviceId ==> IdUnderway(sys'.client, sys'.server)
    ensures sys'.client.sess == sys.client.sess && sys'.client.hichain == sys.client.hichain
    ensures sys'.server.hichain == sys.server.hichain
  {
    OnlyPassedAreDead(u, sys, Client);
    OnlyPassedAreDead(u, sys, Server);
    if At(sys, side).wire != [] { ArrivedMembers(At(sys, side)); }
  }

  /** The other smooth steps only add to a queue or a wire. */
  lemma OutsideGoing(u: Setup, sys: Sys, ev: Event, sys': Sys)
    requires Inv(u, sys) && Going(sys.client, sys.server) && Smooth(ev) && !ev.Process? && !ev.Deliver?
    requires sys' == Step(u, sys, ev)
    ensures sys'.client.hichain != Finished(false) && sys'.server.hichain != Finished(false)
    ensures sys'.client.hichain.Dormant? ==> sys'.client.sess.phase == SyncDeviceId
    ensures sys'.client.sess.phase == SyncDeviceId ==> IdUnderway(sys'.client, sys'.server)
  {
    assert sys'.client.sess == sys.client.sess && sys'.server.sess == sys.server.sess;
    assert forall x :: x in sys.client.inbox ==> x in sys'.client.inbox;
    assert forall x :: x in sys.server.inbox ==> x in sys'.server.inbox;
    assert forall x :: x in sys.client.wire ==> x in sys'.client.wire;
    assert forall x :: x in sys.server.wire ==> x in sys'.server.wire;
  }

  lemma StepGoing(u: Setup, sys: Sys, ev: Event, sys': Sys)
    requires Inv(u, sys) && Going(sys.client, sys.server) && Smooth(ev) && u.link != OtherLink &&
        sys' == Step(u, sys, ev)
    ensures Going(sys'.client, sys'.server)
  {
    StepUntroubled(u, At(sys, ev.side), At(sys, Other(ev.side)), ev);
    match ev
    case Process(side, env) =>
      assert env == FINE;
      if side == Client { ProcessClientGoing(u, sys, sys'); } else { ProcessServerGoing(u, sys, sys'); }
    case Deliver(side) => DeliverGoing(u, sys, side, sys');
    case _ => OutsideGoing(u, sys, ev, sys');
  }

  lemma {:induction false} SmoothRunsGo(u: Setup, events: seq<Event>)
    requires u.link != OtherLink && AllSmooth(events)
    ensures Inv(u, Run(u, FINE, events)) && Going(Run(u, FINE, events).client, Run(u, FINE, events).server)
  {
    RunKeeps(u, FINE, events);
    if events != [] {
      var n := |events| - 1;
      SmoothRunsGo(u, events[..n]);
      StepGoing(u, Run(u, FINE, events[..n]), events[n], Run(u, FINE, events));
    }
  }

  // ------------------------------------------------------------------ draining what is in transit

  function MessageWeight(m: Message): nat {
    if m.RecvDeviceInfo? then 4 else 1
  }

  function InboxWeight(s: seq<Message>): nat {
    if s == [] then 0 else MessageWeight(s[0]) + InboxWeight(s[1..])
  }

  function WireWeight(s: seq<Net>): nat {
    if s == [] then 0 else MessageWeight(ToMessage(s[0])) + 1 + WireWeight(s[1..])
  }

  lemma {:induction false} InboxPush(s: seq<Message>, m: Message)
    ensures InboxWeight(s + [m]) == InboxWeight(s) + MessageWeight(m)
  {
    if s != [] {
      InboxPush(s[1..], m);
      assert (s + [m])[1..] == s[1..] + [m];
    } else {
      assert [] + [m] == [m] && [m][1..] == [];
    }
  }

  lemma {:induction false} WirePush(s: seq<Net>, m: Net)
    ensures WireWeight(s + [m]) == WireWeight(s) + MessageWeight(ToMessage(m)) + 1
  {
    if s != [] {
      WirePush(s[1..], m);
      assert (s + [m])[1..] == s[1..] + [m];
    } else {
      assert [] + [m] == [m] && [m][1..] == [];
    }
  }

  /** What a session may still cause. */
  function SessionWeight(s: Session): nat {
    (match s.phase case SyncDeviceId => 20 case DeviceAuth => 10 case SyncDeviceInfo => 0)
    + (if s.saved.Some? then 3 else 0) + (if s.isDead then 0 else 5)
  }

  function Weight(p: Peer): nat {
    WireWeight(p.wire) + InboxWeight(p.inbox) + SessionWeight(p.sess)
  }

  /** The weights of the at most one message that a reaction posts, and of the one it replays. */
  function PostWeight(posts: seq<Net>): nat {
    if posts == [] then 0 else MessageWeight(ToMessage(posts[0])) + 1
  }

  function ReplayWeight(replays: seq<Message>): nat {
    if replays == [] then 0 else MessageWeight(replays[0])
  }

  /** Whatever a reaction posts or replays weighs less than what it uses up. */
  lemma ReactionLosesWeight(s: Session, msg: Message, env: Env, info: Info)
    ensures var (s', more) := Handle(s, msg, env);
            && |Posts(more, info)| <= 1 && |Replays(more)| <= 1
            && SessionWeight(s') + PostWeight(Posts(more, info)) + ReplayWeight(Replays(more))
               < SessionWeight(s) + MessageWeight(msg)
  {
  }

  lemma DeliverLosesWeight(p: Peer)
    requires p.wire != []
    ensures Weight(Arrived(p)) < Weight(p)
  {
    InboxPush(p.inbox, ToMessage(p.wire[0]));
  }

  lemma AtMostOne<T>(s: seq<T>, t: seq<T>)
    requires |t| <= 1
    ensures s + t == if t == [] then s else s + [t[0]]
  {
  }

  lemma ProcessLosesWeight(u: Setup, p: Peer, q: Peer, side: Side, env: Env)
    requires p.inbox != []
    ensures var (p', q') := Move(u, p, q, Process(side, env)); Weight(p') + Weight(q') < Weight(p) + Weight(q)
  {
    var (s', more) := Handle(p.sess, p.inbox[0], env);
    var posts, replays := Posts(more, InfoOf(u, side)), Replays(more);
    ReactionLosesWeight(p.sess, p.inbox[0], env, InfoOf(u, side));
    AtMostOne(p.inbox[1..], replays);
    AtMostOne(q.wire, posts);
    if replays != [] { InboxPush(p.inbox[1..], replays[0]); }
    if posts != [] { WirePush(q.wire, posts[0]); }
  }

  predicate Drained(sys: Sys) {
    sys.client.wire == [] && sys.client.inbox == [] && sys.server.wire == [] && sys.server.inbox == []
  }

  /** The service of a side as it was, or woken. */
  predicate SameOrWoken(h: Hichain, h': Hichain) {
    h' == h || (h.Dormant? && h' == Running(false))
  }

  /** The client's service has finished before the server's was started, and nothing that could start
      it is on its way. */
  ghost predicate Stuck(client: Peer, server: Peer) {
    client.hichain.Finished? && server.hichain.Dormant? && NetAuthData !in server.wire && RecvAuthData !in server.inbox
  }

  /** Authentication data on its way to a service that was not started will start it. */
  lemma AuthDataStartsServer(u: Setup, sys: Sys)
    requires Inv(u, sys) && Going(sys.client, sys.server) && sys.server.hichain.Dormant?
    requires NetAuthData in sys.server.wire || RecvAuthData in sys.server.inbox
    ensures sys.server.sess.phase == DeviceAuth && !sys.server.sess.isDead
  {
    OnlyPassedAreDead(u, sys, Server);
  }

  lemma ProcessUnstuck(u: Setup, sys: Sys, side: Side, sys': Sys)
    requires Inv(u, sys) && Going(sys.client, sys.server) && !Stuck(sys.client, sys.server)
    requires At(sys, side).inbox != [] && sys' == Step(u, sys, Process(side, FINE))
    ensures !Stuck(sys'.client, sys'.server)
    ensures SameOrWoken(sys.client.hichain, sys'.client.hichain) && SameOrWoken(sys.server.hichain, sys'.server.hichain)
  {
    var p := At(sys, side);
    PopIn(p.inbox);
    PhaseAndOracle(p, FINE);
    assert At(sys', side) == Processed(p, FINE);
    assert At(sys', Other(side)).hichain == At(sys, Other(side)).hichain;
    if side == Server && p.hichain.Dormant? && (NetAuthData in p.wire || RecvAuthData in p.inbox) {
      AuthDataStartsServer(u, sys);
    }
  }

  lemma DeliverUnstuck(u: Setup, sys: Sys, side: Side, sys': Sys)
    requires Inv(u, sys) && Going(sys.client, sys.server) && !Stuck(sys.client, sys.server)
    requires At(sys, side).wire != [] && sys' == Step(u, sys, Deliver(side))
    ensures !Stuck(sys'.client, sys'.server)
    ensures sys'.client.hichain == sys.client.hichain && sys'.server.hichain == sys.server.hichain
  {
    var p := At(sys, side);
    ArrivedMembers(p);
    if side == Server && p.hichain.Dormant? && (NetAuthData in p.wire || RecvAuthData in p.inbox) {
      AuthDataStartsServer(u, sys);
    }
  }

  /** One message of those in transit is delivered or processed. */
  lemma DrainOne(u: Setup, events: seq<Event>) returns (more: seq<Event>)
    requires AllSmooth(events) && u.link != OtherLink && !Drained(Run(u, FINE, events))
    requires !Stuck(Run(u, FINE, events).client, Run(u, FINE, events).server)
    ensures events <= more && AllSmooth(more)
    ensures var sys, sys' := Run(u, FINE, events), Run(u, FINE, more);
            && Weight(sys'.client) + Weight(sys'.server) < Weight(sys.client) + Weight(sys.server)
            && !Stuck(sys'.client, sys'.server)
            && SameOrWoken(sys.client.hichain, sys'.client.hichain)
            && SameOrWoken(sys.server.hichain, sys'.server.hichain)
  {
    var sys := Run(u, FINE, events);
    SmoothRunsGo(u, events);
    var side := if sys.client.wire != [] || sys.client.inbox != [] then Client else Server;
    if At(sys, side).wire != [] {
      more := Go(u, events, Deliver(side));
      DeliverLosesWeight(At(sys, side));
      DeliverUnstuck(u, sys, side, Run(u, FINE, more));
    } else {
      more := Go(u, events, Process(side, FINE));
      ProcessLosesWeight(u, At(sys, side), At(sys, Other(side)), side, FINE);
      ProcessUnstuck(u, sys, side, Run(u, FINE, more));
    }
  }

  /** Everything in transit can be delivered and processed. */
  lemma {:induction false} Drain(u: Setup, events: seq<Event>) returns (more: seq<Event>)
    requires AllSmooth(events) && u.link != OtherLink
    requires !Stuck(Run(u, FINE, events).client, Run(u, FINE, events).server)
    ensures events <= more && AllSmooth(more) && Drained(Run(u, FINE, more))
    ensures var sys, sys' := Run(u, FINE, events), Run(u, FINE, more);
            && !Stuck(sys'.client, sys'.server)
            && SameOrWoken(sys.client.hichain, sys'.client.hichain)
            && SameOrWoken(sys.server.hichain, sys'.server.hichain)
    decreases Weight(Run(u, FINE, events).client) + Weight(Run(u, FINE, events).server)
  {
    if Drained(Run(u, FINE, events)) {
      more := events;
    } else {
      var one := DrainOne(u, events);
      more := Drain(u, one);
    }
  }

  // ------------------------------------------------------------------ and both sides pass

  /** Once drained, the client's service is started, and the server's if the client's is finished. */
  lemma DrainedIsStarted(u: Setup, sys: Sys)
    requires Inv(u, sys) && Going(sys.client, sys.server) && Drained(sys) && !Stuck(sys.client, sys.server)
    ensures !sys.client.hichain.Dormant? && (sys.server.hichain.Dormant? ==> sys.client.hichain.Running?)
  {
  }

  /** Authentication data from a running client starts a drained server. */
  lemma StartServer(u: Setup, events: seq<Event>) returns (more: seq<Event>)
    requires AllSmooth(events) && u.link != OtherLink && Drained(Run(u, FINE, events))
    requires Run(u, FINE, events).client.hichain.Running? && Run(u, FINE, events).server.hichain.Dormant?
    ensures events <= more && AllSmooth(more) && Run(u, FINE, more).client.hichain.Running?
    ensures Run(u, FINE, more).server.hichain.Running?
  {
    SmoothRunsGo(u, events);
    var sys := Run(u, FINE, events);
    OnlyPassedAreDead(u, sys, Client);
    assert sys.client.sess.phase != SyncDeviceInfo;
    more := Go(u, events, Transmit(Client));
    var sent := Run(u, FINE, more);
    assert sent == Sys(sys.client, sys.server.(wire := [] + [NetAuthData]));
    SmoothRunsGo(u, more);
    AuthDataStartsServer(u, sent);
    more := Go(u, more, Deliver(Server));
    assert Run(u, FINE, more).server == sent.server.(wire := [], inbox := [] + [RecvAuthData]);
    more := Go(u, more, Process(Server, FINE));
  }

  /** Both services are started. */
  lemma StartBoth(u: Setup, events: seq<Event>) returns (more: seq<Event>)
    requires AllSmooth(events) && u.link != OtherLink
    requires !Stuck(Run(u, FINE, events).client, Run(u, FINE, events).server)
    ensures events <= more && AllSmooth(more)
    ensures !Run(u, FINE, more).client.hichain.Dormant? && !Run(u, FINE, more).server.hichain.Dormant?
  {
    more := Drain(u, events);
    SmoothRunsGo(u, more);
    DrainedIsStarted(u, Run(u, FINE, more));
    if Run(u, FINE, more).server.hichain.Dormant? {
      more := StartServer(u, more);
    }
  }

  /** A started service reports the key and success. */
  lemma FinishService(u: Setup, events: seq<Event>, side: Side) returns (more: seq<Event>)
    requires AllSmooth(events) && u.link != OtherLink && !At(Run(u, FINE, events), side).hichain.Dormant?
    ensures events <= more && AllSmooth(more) && At(Run(u, FINE, more), side).hichain == Finished(true)
    ensures At(Run(u, FINE, more), Other(side)).hichain == At(Run(u, FINE, events), Other(side)).hichain
  {
    SmoothRunsGo(u, events);
    more := events;
    if At(Run(u, FINE, events), side).hichain.Running? {
      more := Go(u, more, ReportKey(side));
      more := Go(u, more, Finish(side, true));
    }
  }

  /** Every smooth run on a known link extends to a smooth run at rest in which both sides passed,
      unless the client's service finished before anything was sent to start the server's. */
  lemma ExtendsToRest(u: Setup, events: seq<Event>) returns (more: seq<Event>)
    requires AllSmooth(events) && u.link != OtherLink
    requires !Stuck(Run(u, FINE, events).client, Run(u, FINE, events).server)
    ensures events <= more && AllSmooth(more) && Quiet(Run(u, FINE, more))
    ensures Run(u, FINE, more).client.done.passed && Run(u, FINE, more).server.done.passed
  {
    more := StartBoth(u, events);
    more := FinishService(u, more, Client);
    more := FinishService(u, more, Server);
    more := Drain(u, more);
    SmoothRunsPass(u, more);
  }

  lemma StuckStep(u: Setup, sys: Sys, ev: Event, sys': Sys)
    requires Inv(u, sys) && Stuck(sys.client, sys.server) && sys' == Step(u, sys, ev)
    ensures Stuck(sys'.client, sys'.server)
  {
    var p := At(sys, ev.side);
    match ev
    case Process(side, env) =>
      if p.inbox != [] {
        PopIn(p.inbox);
        PhaseAndOracle(p, env);
        PostsWhat(p.sess, p.inbox[0], env, InfoOf(u, side));
        assert At(sys', side) == Processed(p, env);
      }
    case Deliver(side) => if p.wire != [] { ArrivedMembers(p); }
    case _ =>
  }

  lemma {:induction false} StuckForever(u: Setup, events: seq<Event>, more: seq<Event>)
    requires events <= more && Stuck(Run(u, FINE, events).client, Run(u, FINE, events).server)
    ensures Stuck(Run(u, FINE, more).client, Run(u, FINE, more).server)
    decreases |more|
  {
    if more != events {
      var n := |more| - 1;
      assert events <= more[..n];
      StuckForever(u, events, more[..n]);
      RunKeeps(u, FINE, more[..n]);
      StuckStep(u, Run(u, FINE, more[..n]), more[n], Run(u, FINE, more));
    }
  }

  ghost predicate CanRest(u: Setup, events: seq<Event>) {
    exists more :: events <= more && AllSmooth(more) && Quiet(Run(u, FINE, more))
  }

  /** A smooth run on a known link can come to rest after two successful authentications if and only
      if it is not stuck. */
  lemma RestExactly(u: Setup, events: seq<Event>)
    requires AllSmooth(events) && u.link != OtherLink
    ensures CanRest(u, events) <==> !Stuck(Run(u, FINE, events).client, Run(u, FINE, events).server)
  {
    if Stuck(Run(u, FINE, events).client, Run(u, FINE, events).server) {
      forall more | events <= more ensures !Quiet(Run(u, FINE, more)) {
        StuckForever(u, events, more);
      }
    } else {
      var more := ExtendsToRest(u, events);
    }
  }

  /** In particular, on every known link some smooth run comes to rest with both sides passed. */
  lemma HonestRunPasses(u: Setup) returns (events: seq<Event>)
    requires u.link != OtherLink
    ensures AllSmooth(events) && Quiet(Run(u, FINE, events))
    ensures Run(u, FINE, events).client.done.passed && Run(u, FINE, events).server.done.passed
  {
    events := ExtendsToRest(u, []);
  }
}
