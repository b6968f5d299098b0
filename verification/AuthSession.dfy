/** One authentication session: three phases, one verdict.

    `Handle` is the reaction of a session to one message, as a value; the class `AuthFsm`
    is the session the program updates in place, and its methods are proved to do what
    `Handle` says. What the called operations return (unpacking, posting, the device
    authentication service) comes in as an `Env`. */
module AuthSession {
  import opened Options

  datatype Link = Wifi | Br | Ble | P2p | OtherLink

  datatype Phase = SyncDeviceId | DeviceAuth | SyncDeviceInfo

  /** The content of a device-info message. */
  type Info = nat

  datatype Message =
    | RecvDeviceId
    | RecvAuthData
    | SaveSessionKey
    | AuthResult(ok: bool)
    | RecvDeviceInfo(info: Info)
    | RecvCloseAck
    | AuthTimeout
    | DeviceNotTrusted
    | MissingPara

  datatype Code =
    | Passed | Timeout | NotTrusted | SyncDevIdFail | HichainAuthFail | HichainProcessFail
    | HichainAuthError | SyncDevInfoFail | UnpackDevInfoFail | SendFail

  /** What a session does to the outside, in order; failed posts do not appear. */
  datatype Action =
    | PostDeviceId
    | PostDeviceInfo
    | PostCloseAck
    | StartAuth
    | ProcessAuthData
    | StoreKey
    | Replay(info: Info)
    | Verdict(code: Code)

  /** Whether the message could be processed, and whether the post or start that follows succeeded. */
  datatype Env = Env(processOk: bool, postOk: bool)

  datatype Session = Session(link: Link, isServer: bool, phase: Phase, saved: Option<Info>,
                             nodeInfo: Option<Info>, closeAckReceived: bool, isDead: bool)

  function Fresh(link: Link, isServer: bool): Session {
    Session(link, isServer, SyncDeviceId, None, None, false, false)
  }

  function Complete(s: Session, done: seq<Action>, code: Code): (Session, seq<Action>) {
    (s.(isDead := true), done + [Verdict(code)])
  }

  /** Starting a session: the client posts its device id. */
  function Start(link: Link, isServer: bool, env: Env): (Session, seq<Action>) {
    var s := Fresh(link, isServer);
    if isServer then (s, [])
    else if env.postOk then (s, [PostDeviceId])
    else Complete(s, [], SyncDevIdFail)
  }

  function Handle(s: Session, msg: Message, env: Env): (Session, seq<Action>) {
    if s.isDead || msg == MissingPara then (s, [])
    else match (s.phase, msg)
      case (_, AuthTimeout) => Complete(s, [], Timeout)
      case (_, DeviceNotTrusted) => Complete(s, [], NotTrusted)
      case (SyncDeviceId, RecvDeviceId) =>
        if !env.processOk then Complete(s, [], SyncDevIdFail)
        else if !env.postOk then Complete(s, [], if s.isServer then SyncDevIdFail else HichainAuthFail)
        else (s.(phase := DeviceAuth), [if s.isServer then PostDeviceId else StartAuth])
      case (DeviceAuth, RecvAuthData) =>
        if env.processOk then (s, [ProcessAuthData]) else Complete(s, [], HichainProcessFail)
      case (DeviceAuth, SaveSessionKey) => (s, if env.processOk then [StoreKey] else [])
      case (DeviceAuth, AuthResult(ok)) => OnAuthResult(s, ok, env)
      case (DeviceAuth, RecvDeviceInfo(info)) => (s.(saved := Some(info)), [])
      case (SyncDeviceInfo, RecvDeviceInfo(info)) => OnDeviceInfo(s, info, env)
      case (SyncDeviceInfo, RecvCloseAck) =>
        if s.nodeInfo.Some? then Complete(s, [], Passed) else (s.(closeAckReceived := true), [])
      case _ => (s, [])
  }

  function OnAuthResult(s: Session, ok: bool, env: Env): (Session, seq<Action>) {
    if !ok then Complete(s, [], HichainAuthError)
    else if s.link == OtherLink || ((s.link != Wifi || !s.isServer) &&
      !env.postOk) then Complete(s, [], SyncDevInfoFail)
    else
      var posts := if s.link == Wifi && s.isServer then [] else [PostDeviceInfo];
      var replay := if s.saved.Some? then [Replay(s.saved.value)] else [];
      (s.(phase := SyncDeviceInfo, saved := None), posts + replay)
  }

  function OnDeviceInfo(s: Session, info: Info, env: Env): (Session, seq<Action>) {
    if !env.processOk then Complete(s, [], UnpackDevInfoFail)
    else
      var s' := s.(nodeInfo := Some(info));
      if s.link == Wifi then
        if !s.isServer then Complete(s', [], Passed)
        else if env.postOk then Complete(s', [PostDeviceInfo], Passed)
        else Complete(s', [], SyncDevInfoFail)
      else if !env.postOk then Complete(s', [], SendFail)
      else if s.closeAckReceived then Complete(s', [PostCloseAck], Passed)
      else (s', [PostCloseAck])
  }

  // ------------------------------------------------------------------ one session over any messages

  datatype Input = Input(msg: Message, env: Env)

  /** The session and all its actions after a sequence of inputs. */
  function Feed(link: Link, isServer: bool, env: Env, inputs: seq<Input>): (Session, seq<Action>) {
    if inputs == [] then Start(link, isServer, env)
    else
      var n := |inputs| - 1;
      var (s, done) := Feed(link, isServer, env, inputs[..n]);
      var (s', more) := Handle(s, inputs[n].msg, inputs[n].env);
      (s', done + more)
  }

  function Verdicts(actions: seq<Action>): nat {
    if actions == [] then 0
    else Verdicts(actions[..|actions| - 1]) + if actions[|actions| - 1].Verdict? then 1 else 0
  }

  /** The messages received so far. */
  function Got(inputs: seq<Input>): set<Message> {
    set i | 0 <= i < |inputs| :: inputs[i].msg
  }

  function Done(actions: seq<Action>): set<Action> {
    set a | a in actions
  }

  /** What a success verdict rests on. */
  predicate PassEarned(s: Session, got: set<Message>, done: set<Action>) {
    && AuthResult(true) in got
    && PostDeviceInfo in done
    && s.nodeInfo.Some? && RecvDeviceInfo(s.nodeInfo.value) in got
    && (s.link != Wifi ==> PostCloseAck in done && RecvCloseAck in got)
  }

  /** What a session knows about its own past. */
  ghost predicate Remembers(s: Session, got: set<Message>, done: set<Action>) {
    && (s.phase == SyncDeviceInfo ==>
          AuthResult(true) in got && s.saved.None? && (PostDeviceInfo in done || (s.link == Wifi && s.isServer)))
    && (s.phase != SyncDeviceInfo ==> s.nodeInfo.None? && !s.closeAckReceived)
    && (s.saved.Some? ==> RecvDeviceInfo(s.saved.value) in got)
    && (s.nodeInfo.Some? ==> RecvDeviceInfo(s.nodeInfo.value) in got)
    && (s.closeAckReceived ==> RecvCloseAck in got)
    && (!s.isDead && s.nodeInfo.Some? ==> s.link != Wifi && PostCloseAck in done && !s.closeAckReceived)
    && (Verdict(Passed) in done ==> s.isDead && PassEarned(s, got, done))
  }

  lemma {:induction false} VerdictsConcat(a: seq<Action>, b: seq<Action>)
    ensures Verdicts(a + b) == Verdicts(a) + Verdicts(b)
    decreases b
  {
    if b == [] {
      assert a + b == a;
    } else {
      var n := |b| - 1;
      assert (a + b)[..|a + b| - 1] == a + b[..n];
      VerdictsConcat(a, b[..n]);
    }
  }

  /** A reaction is at most two actions, and its verdict, if any, comes last and ends the session. */
  lemma ReactionShape(s: Session, msg: Message, env: Env)
    ensures var (s', more) := Handle(s, msg, env);
            && |more| <= 2 && (|more| == 2 ==> !more[0].Verdict?)
            && (s'.isDead && !s.isDead <==> more != [] && more[|more| - 1].Verdict?)
            && (s.isDead ==> s' == s && more == [])
  {
  }

  lemma {:induction false} LastVerdictOnly(more: seq<Action>)
    requires |more| <= 2 && (|more| == 2 ==> !more[0].Verdict?)
    ensures Verdicts(more) == if more != [] && more[|more| - 1].Verdict? then 1 else 0
  {
    if |more| == 1 {
      OneAction(more[0]);
      assert more == [more[0]];
    } else if |more| == 2 {
      OneAction(more[0]);
      OneAction(more[1]);
      VerdictsConcat([more[0]], [more[1]]);
      assert more == [more[0]] + [more[1]];
    }
  }

  /** A reaction emits a verdict exactly when it ends the session. */
  lemma ReactionVerdicts(s: Session, msg: Message, env: Env)
    ensures var (s', more) := Handle(s, msg, env);
            && Verdicts(more) == (if s'.isDead && !s.isDead then 1 else 0)
            && (s.isDead ==> s' == s && more == [])
  {
    ReactionShape(s, msg, env);
    LastVerdictOnly(Handle(s, msg, env).1);
  }

  lemma OneAction(a: Action)
    ensures Verdicts([a]) == if a.Verdict? then 1 else 0
  {
    assert [a][..0] == [];
  }

  lemma HandleRemembers(s: Session, got: set<Message>, done: set<Action>, msg: Message, env: Env)
    requires Remembers(s, got, done)
    ensures var (s', more) := Handle(s, msg, env); Remembers(s', got + {msg}, done + Done(more))
  {
  }

  ghost predicate Consistent(s: Session, link: Link, isServer: bool, got: set<Message>, actions: seq<Action>) {
    && Remembers(s, got, Done(actions))
    && Verdicts(actions) == (if s.isDead then 1 else 0)
    && s.link == link && s.isServer == isServer
  }

  lemma HandleConsistent(s: Session, link: Link, isServer: bool, got: set<Message>, actions: seq<Action>, input: Input,
                         s': Session, more: seq<Action>)
    requires Consistent(s, link, isServer, got, actions) && Handle(s, input.msg, input.env) == (s', more)
    ensures Consistent(s', link, isServer, got + {input.msg}, actions + more)
  {
    ReactionVerdicts(s, input.msg, input.env);
    VerdictsConcat(actions, more);
    HandleRemembers(s, got, Done(actions), input.msg, input.env);
    assert Done(actions + more) == Done(actions) + Done(more);
    KeepsRole(s, input.msg, input.env);
  }

  lemma KeepsRole(s: Session, msg: Message, env: Env)
    ensures Handle(s, msg, env).0.link == s.link && Handle(s, msg, env).0.isServer == s.isServer
  {
  }

  lemma {:induction false} FeedConsistent(link: Link, isServer: bool, env: Env, inputs: seq<Input>)
    ensures var (s, actions) := Feed(link, isServer, env, inputs); Consistent(s, link, isServer, Got(inputs), actions)
  {
    if inputs == [] {
      var (s, actions) := Start(link, isServer, env);
      if |actions| == 1 { assert actions[..0] == []; }
    } else {
      var n := |inputs| - 1;
      FeedConsistent(link, isServer, env, inputs[..n]);
      GotGrows(inputs);
      var r := Feed(link, isServer, env, inputs[..n]);
      var (s', more) := Handle(r.0, inputs[n].msg, inputs[n].env);
      HandleConsistent(r.0, link, isServer, Got(inputs[..n]), r.1, inputs[n], s', more);
    }
  }

  lemma GotGrows(inputs: seq<Input>)
    requires inputs != []
    ensures Got(inputs) == Got(inputs[..|inputs| - 1]) + {inputs[|inputs| - 1].msg}
  {
    var n := |inputs| - 1;
    forall m | m in Got(inputs) ensures m in Got(inputs[..n]) + {inputs[n].msg} {
      var i :| 0 <= i < |inputs| && inputs[i].msg == m;
      if i < n { assert inputs[..n][i].msg == m; }
    }
    forall m | m in Got(inputs[..n]) ensures m in Got(inputs) {
      var i :| 0 <= i < n && inputs[..n][i].msg == m;
      assert inputs[i].msg == m;
    }
  }

  /** Over any messages and any outcomes a session gives at most one verdict; a success verdict
      means authentication succeeded, the own device info was posted, the recorded peer info was
      received, and off WiFi a close ack was both posted and received. */
  lemma OneEarnedVerdict(link: Link, isServer: bool, env: Env, inputs: seq<Input>)
    ensures var (s, actions) := Feed(link, isServer, env, inputs);
            && Verdicts(actions) <= 1
            && (Verdict(Passed) in actions ==> s.link == link && PassEarned(s, Got(inputs), Done(actions)))
  {
    FeedConsistent(link, isServer, env, inputs);
  }

  /** Once the verdict is given nothing that arrives later changes the session or acts. */
  lemma {:induction false} NothingAfterVerdict(link: Link, isServer: bool, env: Env, inputs: seq<Input>,
                                               later: seq<Input>)
    requires Verdicts(Feed(link, isServer, env, inputs).1) == 1
    ensures Feed(link, isServer, env, inputs + later) == Feed(link, isServer, env, inputs)
    decreases later
  {
    FeedConsistent(link, isServer, env, inputs);
    if later == [] {
      assert inputs + later == inputs;
    } else {
      var n := |later| - 1;
      assert (inputs + later)[..|inputs + later| - 1] == inputs + later[..n];
      NothingAfterVerdict(link, isServer, env, inputs, later[..n]);
      var (s, actions) := Feed(link, isServer, env, inputs);
      assert actions + [] == actions;
    }
  }

  // ------------------------------------------------------------------ what the received messages decide

  /** A device id was received. */
  ghost predicate IdSince(inputs: seq<Input>) {
    exists i :: 0 <= i < |inputs| && inputs[i].msg == RecvDeviceId
  }

  /** The authentication succeeded, after a device id was received. */
  ghost predicate AuthSince(inputs: seq<Input>) {
    exists i :: 0 <= i < |inputs| && inputs[i].msg == AuthResult(true) && IdSince(inputs[..i])
  }

  /** A close ack was received after the authentication succeeded. */
  ghost predicate AckSince(inputs: seq<Input>) {
    exists i :: 0 <= i < |inputs| && inputs[i].msg == RecvCloseAck && AuthSince(inputs[..i])
  }

  /** The last device info that was received after the device id, or after the authentication. */
  ghost function InfoSince(inputs: seq<Input>, authed: bool): Option<Info> {
    if inputs == [] then None
    else
      var n := |inputs| - 1;
      if inputs[n].msg.RecvDeviceInfo? && (if authed then AuthSince(inputs[..n]) else IdSince(inputs[..n])) then
        Some(inputs[n].msg.info)
      else InfoSince(inputs[..n], authed)
  }

  /** What the messages tell: a device id, then a success, a close ack after it, and the last device
      info after the id and after the success. */
  datatype Facts = Facts(id: bool, auth: bool, ack: bool, early: Option<Info>, late: Option<Info>)

  ghost function Known(inputs: seq<Input>): Facts {
    Facts(IdSince(inputs), AuthSince(inputs), AckSince(inputs), InfoSince(inputs, false), InfoSince(inputs, true))
  }

  /** The session is what the messages make of it. */
  predicate Stands(s: Session, f: Facts) {
    && s.phase == (if f.auth then SyncDeviceInfo else if f.id then DeviceAuth else SyncDeviceId)
    && s.saved == (if f.auth then None else f.early) && s.nodeInfo == f.late && s.closeAckReceived == f.ack
  }

  lemma Appended(inputs: seq<Input>, input: Input, i: nat)
    requires i <= |inputs|
    ensures (inputs + [input])[..i] == inputs[..i]
  {
  }

  lemma IdGrows(inputs: seq<Input>, input: Input)
    ensures IdSince(inputs + [input]) <==> IdSince(inputs) || input.msg == RecvDeviceId
  {
    var all := inputs + [input];
    if IdSince(inputs) {
      var i :| 0 <= i < |inputs| && inputs[i].msg == RecvDeviceId;
      assert all[i].msg == RecvDeviceId;
    }
    if input.msg == RecvDeviceId { assert all[|inputs|].msg == RecvDeviceId; }
  }

  lemma AuthGrows(inputs: seq<Input>, input: Input)
    ensures AuthSince(inputs + [input]) <==> AuthSince(inputs) || (input.msg == AuthResult(true) && IdSince(inputs))
  {
    var all := inputs + [input];
    if AuthSince(inputs) {
      var i :| 0 <= i < |inputs| && inputs[i].msg == AuthResult(true) && IdSince(inputs[..i]);
      Appended(inputs, input, i);
      assert all[i].msg == AuthResult(true);
    }
    if AuthSince(all) {
      var i :| 0 <= i < |all| && all[i].msg == AuthResult(true) && IdSince(all[..i]);
      Appended(inputs, input, i);
    }
    Appended(inputs, input, |inputs|);
    assert all[|inputs|] == input && inputs[..|inputs|] == inputs;
  }

  lemma AckGrows(inputs: seq<Input>, input: Input)
    ensures AckSince(inputs + [input]) <==> AckSince(inputs) || (input.msg == RecvCloseAck && AuthSince(inputs))
  {
    var all := inputs + [input];
    if AckSince(inputs) {
      var i :| 0 <= i < |inputs| && inputs[i].msg == RecvCloseAck && AuthSince(inputs[..i]);
      Appended(inputs, input, i);
      assert all[i].msg == RecvCloseAck;
    }
    if AckSince(all) {
      var i :| 0 <= i < |all| && all[i].msg == RecvCloseAck && AuthSince(all[..i]);
      Appended(inputs, input, i);
    }
    Appended(inputs, input, |inputs|);
    assert all[|inputs|] == input && inputs[..|inputs|] == inputs;
  }

  /** One more message, in terms of what was known before. */
  function Learn(f: Facts, msg: Message): Facts {
    Facts(f.id || msg == RecvDeviceId, f.auth || (msg == AuthResult(true) && f.id),
          f.ack || (msg == RecvCloseAck && f.auth),
          if msg.RecvDeviceInfo? && f.id then Some(msg.info) else f.early,
          if msg.RecvDeviceInfo? && f.auth then Some(msg.info) else f.late)
  }

  lemma KnownGrows(inputs: seq<Input>, input: Input)
    ensures Known(inputs + [input]) == Learn(Known(inputs), input.msg)
  {
    IdGrows(inputs, input);
    AuthGrows(inputs, input);
    AckGrows(inputs, input);
    Appended(inputs, input, |inputs|);
    assert inputs[..|inputs|] == inputs;
  }

  predicate InOrder(f: Facts) {
    && (f.auth ==> f.id) && (f.ack ==> f.auth) && (f.late.Some? ==> f.auth) && (f.early.Some? ==> f.id)
  }

  lemma {:induction false} KnownInOrder(inputs: seq<Input>)
    ensures InOrder(Known(inputs))
  {
    if inputs != [] {
      var n := |inputs| - 1;
      KnownInOrder(inputs[..n]);
      assert inputs == inputs[..n] + [inputs[n]];
      KnownGrows(inputs[..n], inputs[n]);
    }
  }

  lemma HandleStands(s: Session, f: Facts, msg: Message, env: Env, s': Session)
    requires InOrder(f) && Stands(s, f) && !s.isDead && s' == Handle(s, msg, env).0 && !s'.isDead
    ensures Stands(s', Learn(f, msg))
  {
  }

  lemma FeedOneMore(link: Link, isServer: bool, env: Env, inputs: seq<Input>, input: Input)
    ensures var (s, done) := Feed(link, isServer, env, inputs);
            var (s', more) := Handle(s, input.msg, input.env);
            Feed(link, isServer, env, inputs + [input]) == (s', done + more)
  {
    Appended(inputs, input, |inputs|);
    assert inputs[..|inputs|] == inputs;
  }

  /** While no verdict has been given, the messages alone decide the phase, the device info that is
      kept for later, the recorded peer info and whether the close ack was noted. */
  lemma {:induction false} MessagesDecide(link: Link, isServer: bool, env: Env, inputs: seq<Input>)
    requires Verdicts(Feed(link, isServer, env, inputs).1) == 0
    ensures Stands(Feed(link, isServer, env, inputs).0, Known(inputs))
  {
    FeedConsistent(link, isServer, env, inputs);
    if inputs != [] {
      var n := |inputs| - 1;
      FeedConsistent(link, isServer, env, inputs[..n]);
      assert inputs == inputs[..n] + [inputs[n]];
      var r := Feed(link, isServer, env, inputs[..n]);
      VerdictsConcat(r.1, Handle(r.0, inputs[n].msg, inputs[n].env).1);
      MessagesDecide(link, isServer, env, inputs[..n]);
      KnownInOrder(inputs[..n]);
      KnownGrows(inputs[..n], inputs[n]);
      HandleStands(r.0, Known(inputs[..n]), inputs[n].msg, inputs[n].env, Feed(link, isServer, env, inputs).0);
    }
  }

  /** The side posts its own device info on this success: not on an unknown link, and not as the
      server on WiFi, which waits for the client's. */
  predicate PostsInfo(link: Link, isServer: bool) {
    link == Br || link == Ble || link == P2p || (link == Wifi && !isServer)
  }

  /** When a session that has received these messages and given no verdict ends with this code. */
  predicate Ends(link: Link, isServer: bool, f: Facts, input: Input, code: Code) {
    var msg, ok, posted := input.msg, input.env.processOk, input.env.postOk;
    var inId, inAuth, inInfo := !f.id, f.id && !f.auth, f.auth;
    match code
    case Timeout => msg == AuthTimeout
    case NotTrusted => msg == DeviceNotTrusted
    case SyncDevIdFail => inId && msg == RecvDeviceId && (!ok || (isServer && !posted))
    case HichainAuthFail => inId && msg == RecvDeviceId && ok && !isServer && !posted
    case HichainProcessFail => inAuth && msg == RecvAuthData && !ok
    case HichainAuthError => inAuth && msg == AuthResult(false)
    case SyncDevInfoFail =>
      || (inAuth && msg == AuthResult(true) && (link == OtherLink || (PostsInfo(link, isServer) && !posted)))
      || (inInfo && msg.RecvDeviceInfo? && ok && link == Wifi && isServer && !posted)
    case UnpackDevInfoFail => inInfo && msg.RecvDeviceInfo? && !ok
    case SendFail => inInfo && msg.RecvDeviceInfo? && ok && link != Wifi && !posted
    case Passed =>
      || (inInfo && msg == RecvCloseAck && f.late.Some?)
      || (inInfo && msg.RecvDeviceInfo? && ok && link == Wifi && (!isServer || posted))
      || (inInfo && msg.RecvDeviceInfo? && ok && link != Wifi && posted && f.ack)
  }

  /** When it does this. */
  predicate Acts(link: Link, isServer: bool, f: Facts, input: Input, a: Action) {
    var msg, ok, posted := input.msg, input.env.processOk, input.env.postOk;
    var inId, inAuth, inInfo := !f.id, f.id && !f.auth, f.auth;
    match a
    case PostDeviceId => inId && msg == RecvDeviceId && ok && posted && isServer
    case StartAuth => inId && msg == RecvDeviceId && ok && posted && !isServer
    case ProcessAuthData => inAuth && msg == RecvAuthData && ok
    case StoreKey => inAuth && msg == SaveSessionKey && ok
    case PostDeviceInfo =>
      || (inAuth && msg == AuthResult(true) && PostsInfo(link, isServer) && posted)
      || (inInfo && msg.RecvDeviceInfo? && ok && link == Wifi && isServer && posted)
    case PostCloseAck => inInfo && msg.RecvDeviceInfo? && ok && link != Wifi && posted
    case Replay(info) =>
      && inAuth && msg == AuthResult(true) && f.early == Some(info)
      && link != OtherLink && (PostsInfo(link, isServer) ==> posted)
    case Verdict(code) => Ends(link, isServer, f, input, code)
  }

  lemma ReactionExactly(s: Session, f: Facts, input: Input, a: Action)
    requires InOrder(f) && Stands(s, f) && !s.isDead
    ensures a in Handle(s, input.msg, input.env).1 <==> Acts(s.link, s.isServer, f, input, a)
  {
  }

  lemma NewActions(done: seq<Action>, more: seq<Action>, a: Action)
    requires |more| <= 2 && (|more| == 2 ==> !more[0].Verdict?)
    ensures (done + more)[|done|..] == more && done <= done + more
    ensures a.Verdict? && a in more ==> (done + more)[|done + more| - 1] == a
  {
  }

  /** What a session does on its next message, in terms of the messages alone. After any inputs
      without a verdict it appends an action if and only if the messages so far, the new message, the
      link, the side and the outcomes are the ones for it, and it ends with the code of the failure
      that occurred, or with success, as its last action. */
  lemma ActionsExactly(link: Link, isServer: bool, env: Env, inputs: seq<Input>, input: Input, a: Action)
    requires Verdicts(Feed(link, isServer, env, inputs).1) == 0
    ensures var done, all := Feed(link, isServer, env, inputs).1, Feed(link, isServer, env, inputs + [input]).1;
            && done <= all
            && (a in all[|done|..] <==> Acts(link, isServer, Known(inputs), input, a))
            && (a.Verdict? && a in all[|done|..] ==> all[|all| - 1] == a)
  {
    var acts := Acts(link, isServer, Known(inputs), input, a);
    FeedConsistent(link, isServer, env, inputs);
    MessagesDecide(link, isServer, env, inputs);
    FeedOneMore(link, isServer, env, inputs, input);
    var (s, done) := Feed(link, isServer, env, inputs);
    KnownInOrder(inputs);
    ReactionExactly(s, Known(inputs), input, a);
    ReactionShape(s, input.msg, input.env);
    assert a in Handle(s, input.msg, input.env).1 <==> acts;
    NewActions(done, Handle(s, input.msg, input.env).1, a);
  }

  lemma EndsAtOnce(link: Link, isServer: bool, env: Env, inputs: seq<Input>, input: Input, code: Code)
    requires Verdicts(Feed(link, isServer, env, inputs).1) == 0
    requires (input.msg == DeviceNotTrusted && code == NotTrusted) || (input.msg == AuthTimeout && code == Timeout)
    ensures Feed(link, isServer, env, inputs + [input]).1 == Feed(link, isServer, env, inputs).1 + [Verdict(code)]
  {
    FeedConsistent(link, isServer, env, inputs);
    FeedOneMore(link, isServer, env, inputs, input);
  }

  /** Whatever came before, a distrusted device ends the session as not trusted and a timeout ends it
      as timed out. */
  lemma DistrustAndTimeoutEnd(link: Link, isServer: bool, env: Env, inputs: seq<Input>, outcome: Env)
    requires Verdicts(Feed(link, isServer, env, inputs).1) == 0
    ensures var done := Feed(link, isServer, env, inputs).1;
            && Feed(link, isServer, env, inputs + [Input(DeviceNotTrusted, outcome)]).1 == done + [Verdict(NotTrusted)]
            && Feed(link, isServer, env, inputs + [Input(AuthTimeout, outcome)]).1 == done + [Verdict(Timeout)]
  {
    EndsAtOnce(link, isServer, env, inputs, Input(DeviceNotTrusted, outcome), NotTrusted);
    EndsAtOnce(link, isServer, env, inputs, Input(AuthTimeout, outcome), Timeout);
  }

  /** Before any message a server has done nothing, and a client has posted its device id or failed to. */
  lemma StartExactly(link: Link, isServer: bool, env: Env, a: Action)
    ensures var actions := Feed(link, isServer, env, []).1;
            && (isServer ==> actions == []) && (!isServer ==> |actions| == 1)
            && (a in actions <==> !isServer && a == if env.postOk then PostDeviceId else Verdict(SyncDevIdFail))
  {
  }

  // ------------------------------------------------------------------ the session object

  class AuthFsm {
    var link: Link
    var isServer: bool
    var phase: Phase
    var deviceInfoData: Option<Info>
    var nodeInfo: Option<Info>
    var isNodeInfoReceived: bool
    var isCloseAckReceived: bool
    var isDead: bool
    var actions: seq<Action>

    ghost predicate Valid()
      reads this
    {
      isNodeInfoReceived == nodeInfo.Some?
    }

    ghost function Snapshot(): Session
      reads this
    {
      Session(link, isServer, phase, deviceInfoData, nodeInfo, isCloseAckReceived, isDead)
    }

    constructor (link: Link, isServer: bool, env: Env)
      ensures Valid()
      ensures (Snapshot(), actions) == Start(link, isServer, env)
    {
      this.link, this.isServer, phase := link, isServer, SyncDeviceId;
      deviceInfoData, nodeInfo := None, None;
      isNodeInfoReceived, isCloseAckReceived, isDead := false, false, false;
      actions := [];
      new;
      if !isServer {
        if env.postOk {
          actions := [PostDeviceId];
        } else {
          CompleteAuthSession(SyncDevIdFail);
        }
      }
    }

    method CompleteAuthSession(code: Code)
      modifies this
      ensures (Snapshot(), actions) == Complete(old(Snapshot()), old(actions), code)
      ensures isNodeInfoReceived == old(isNodeInfoReceived)
    {
      actions := actions + [Verdict(code)];
      isDead := true;
    }

    /** One message, through the process function of the current phase. */
    method Process(msg: Message, env: Env)
      requires Valid()
      modifies this
      ensures Valid()
      ensures Snapshot() == Handle(old(Snapshot()), msg, env).0
      ensures actions == old(actions) + Handle(old(Snapshot()), msg, env).1
      ensures !old(isDead) && msg == DeviceNotTrusted ==> isDead && actions == old(actions) + [Verdict(NotTrusted)]
      ensures !old(isDead) && msg == AuthTimeout ==> isDead && actions == old(actions) + [Verdict(Timeout)]
    {
      if isDead || msg == MissingPara {
        return;
      }
      match (phase, msg) {
        case (SyncDeviceId, RecvDeviceId) => HandleMsgRecvDeviceId(env);
        case (DeviceAuth, RecvAuthData) =>
          if env.processOk {
            actions := actions + [ProcessAuthData];
          } else {
            CompleteAuthSession(HichainProcessFail);
          }
        case (DeviceAuth, SaveSessionKey) =>
          if env.processOk {
            actions := actions + [StoreKey];
          }
        case (DeviceAuth, AuthResult(ok)) => HandleMsgAuthResult(ok, env);
        case (DeviceAuth, RecvDeviceInfo(info)) => deviceInfoData := Some(info);
        case (SyncDeviceInfo, RecvDeviceInfo(info)) => HandleMsgRecvDeviceInfo(info, env);
        case (SyncDeviceInfo, RecvCloseAck) => HandleMsgRecvCloseAck();
        case (_, AuthTimeout) => CompleteAuthSession(Timeout);
        case (_, DeviceNotTrusted) => CompleteAuthSession(NotTrusted);
        case _ =>
      }
    }

    method HandleMsgRecvDeviceId(env: Env)
      requires Valid() && !isDead && phase == SyncDeviceId
      modifies this
      ensures Valid()
      ensures Snapshot() == Handle(old(Snapshot()), RecvDeviceId, env).0
      ensures actions == old(actions) + Handle(old(Snapshot()), RecvDeviceId, env).1
    {
      var ret: Code;
      if !env.processOk {
        ret := SyncDevIdFail;
      } else if isServer && !env.postOk {
        ret := SyncDevIdFail;
      } else if !isServer && !env.postOk {
        ret := HichainAuthFail;
      } else {
        actions := actions + [if isServer then PostDeviceId else StartAuth];
        phase := DeviceAuth;
        return;
      }
      CompleteAuthSession(ret);
    }

    /** Posting the own device info after authentication: a WiFi server waits for the client's. */
    method TrySyncDeviceInfo(env: Env) returns (ok: bool)
      modifies this`actions
      ensures ok <==> link != OtherLink && ((link == Wifi && isServer) || env.postOk)
      ensures actions == old(actions) + if ok && !(link == Wifi && isServer) then [PostDeviceInfo] else []
    {
      match link {
        case Wifi =>
          if isServer {
            return true;
          }
          ok := env.postOk;
        case Br => ok := env.postOk;
        case Ble => ok := env.postOk;
        case P2p => ok := env.postOk;
        case OtherLink => ok := false;
      }
      if ok {
        actions := actions + [PostDeviceInfo];
      }
    }

    method HandleMsgAuthResult(ok: bool, env: Env)
      requires Valid() && !isDead && phase == DeviceAuth
      modifies this
      ensures Valid()
      ensures Snapshot() == Handle(old(Snapshot()), AuthResult(ok), env).0
      ensures actions == old(actions) + Handle(old(Snapshot()), AuthResult(ok), env).1
    {
      if !ok {
        CompleteAuthSession(HichainAuthError);
        return;
      }
      var synced := TrySyncDeviceInfo(env);
      if !synced {
        CompleteAuthSession(SyncDevInfoFail);
        return;
      }
      if deviceInfoData.Some? {
        actions := actions + [Replay(deviceInfoData.value)];
        deviceInfoData := None;
      }
      phase := SyncDeviceInfo;
    }

    method HandleMsgRecvDeviceInfo(info: Info, env: Env)
      requires Valid() && !isDead && phase == SyncDeviceInfo
      modifies this
      ensures Valid()
      ensures Snapshot() == Handle(old(Snapshot()), RecvDeviceInfo(info), env).0
      ensures actions == old(actions) + Handle(old(Snapshot()), RecvDeviceInfo(info), env).1
    {
      if !env.processOk {
        CompleteAuthSession(UnpackDevInfoFail);
        return;
      }
      nodeInfo := Some(info);
      isNodeInfoReceived := true;
      if link == Wifi {
        if !isServer {
          CompleteAuthSession(Passed);
          return;
        }
        if !env.postOk {
          CompleteAuthSession(SyncDevInfoFail);
          return;
        }
        actions := actions + [PostDeviceInfo];
        CompleteAuthSession(Passed);
        return;
      }
      if !env.postOk {
        CompleteAuthSession(SendFail);
        return;
      }
      actions := actions + [PostCloseAck];
      if isCloseAckReceived {
        CompleteAuthSession(Passed);
      }
    }

    method HandleMsgRecvCloseAck()
      requires Valid() && !isDead && phase == SyncDeviceInfo
      modifies this
      ensures Valid()
      ensures forall env :: Snapshot() == Handle(old(Snapshot()), RecvCloseAck, env).0
      ensures forall env :: actions == old(actions) + Handle(old(Snapshot()), RecvCloseAck, env).1
    {
      if isNodeInfoReceived {
        CompleteAuthSession(Passed);
      } else {
        isCloseAckReceived := true;
      }
    }
  }
}
