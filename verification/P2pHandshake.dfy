/** The status-based P2P handshake of the auth manager beside the session state machine.

    Both join the same three happenings: the session key (or authentication result), the
    peer's device info and its close ack. `Old` is the auth manager's state as a value, and
    the class `AuthManager` is the object whose methods update it in place. */
module P2pHandshake {
  import opened AuthSession
  import opened Options

  datatype Status = InAuthProgress | InSyncProgress | SyncFinish | WaitPeerDevInfo | WaitCloseAck | AuthPassed

  /** What a handshake has shown to the outside: device infos posted, acks sent, passes reported,
      and the peer info it accepted last. */
  datatype Outcome = Outcome(infos: nat, acks: nat, passes: nat, accepted: Option<Info>)

  datatype Old = Old(status: Status, keyed: bool, saved: Option<Info>, out: Outcome)

  const NOTHING: Outcome := Outcome(0, 0, 0, None)

  function OldStart(): Old { Old(InAuthProgress, false, None, NOTHING) }

  /** The peer's info is reported; what follows depends on the status. */
  function OldReport(o: Old, info: Info): Old {
    var out := o.out.(accepted := Some(info));
    match o.status
    case SyncFinish => o.(status := WaitCloseAck, out := out.(acks := out.acks + 1))
    case WaitPeerDevInfo => o.(status := AuthPassed, out := out.(acks := out.acks + 1, passes := out.passes + 1))
    case _ => o.(out := out)
  }

  function OldOnInfo(o: Old, info: Info): Old {
    if !o.keyed || o.status == InSyncProgress then o.(saved := Some(info)) else OldReport(o, info)
  }

  function OldOnKey(o: Old): Old {
    var o1 := o.(status := SyncFinish, keyed := true, out := o.out.(infos := o.out.infos + 1));
    if o.saved.Some? then OldOnInfo(o1, o.saved.value).(saved := None) else o1
  }

  function OldOnAck(o: Old): Old {
    if o.status == WaitCloseAck then o.(status := AuthPassed, out := o.out.(passes := o.out.passes + 1))
    else o.(status := WaitPeerDevInfo)
  }

  /** The session state machine from the authentication phase on, with its replayed message. */
  datatype New = New(sess: Session, pending: Option<Info>, out: Outcome)

  function NewStart(isServer: bool): New {
    New(Fresh(P2p, isServer).(phase := DeviceAuth), None, NOTHING)
  }

  function NewOn(n: New, msg: Message): New {
    var (s', more) := Handle(n.sess, msg, Env(true, true));
    New(s', if more != [] && more[|more| - 1].Replay? then Some(more[|more| - 1].info) else n.pending,
        Outcome(n.out.infos + (if PostDeviceInfo in more then 1 else 0),
                n.out.acks + (if PostCloseAck in more then 1 else 0),
                n.out.passes + (if Verdict(Passed) in more then 1 else 0), s'.nodeInfo))
  }

  /** `ReplayNow` is the moment the state machine takes its replayed message from the queue. */
  datatype Happening = Key | PeerInfo(info: Info) | Ack | ReplayNow

  function OldOn(o: Old, h: Happening): Old {
    match h
    case Key => OldOnKey(o)
    case PeerInfo(info) => OldOnInfo(o, info)
    case Ack => OldOnAck(o)
    case ReplayNow => o
  }

  function NewStep(n: New, h: Happening): New {
    match h
    case Key => NewOn(n, AuthResult(true))
    case PeerInfo(info) => NewOn(n, RecvDeviceInfo(info))
    case Ack => NewOn(n, RecvCloseAck)
    case ReplayNow => if n.pending.Some? then NewOn(n.(pending := None), RecvDeviceInfo(n.pending.value)) else n
  }

  function OldRun(hs: seq<Happening>): Old {
    if hs == [] then OldStart() else OldOn(OldRun(hs[..|hs| - 1]), hs[|hs| - 1])
  }

  function NewRun(isServer: bool, hs: seq<Happening>): New {
    if hs == [] then NewStart(isServer) else NewStep(NewRun(isServer, hs[..|hs| - 1]), hs[|hs| - 1])
  }

  // ------------------------------------------------------------------ when the two agree

  /** What has happened so far: a key, the peer info to be joined, an ack after the key, a further
      ack after all three, and whether the state machine still has to take its replayed message. */
  datatype Seen = Seen(key: bool, info: Option<Info>, ack: bool, late: bool, waiting: bool)

  function See(x: Seen, h: Happening): Seen {
    match h
    case Key => if x.key then x else x.(key := true, waiting := x.info.Some?)
    case PeerInfo(i) => if x.key && x.info.Some? && !x.waiting then x else x.(info := Some(i), waiting := false)
    case Ack => x.(ack := x.ack || x.key, late := x.late || (x.key && x.info.Some? && x.ack))
    case ReplayNow => x.(waiting := false)
  }

  function SeenIn(hs: seq<Happening>): Seen {
    if hs == [] then Seen(false, None, false, false, false) else See(SeenIn(hs[..|hs| - 1]), hs[|hs| - 1])
  }

  /** The key comes once. An info that comes when key and info are there must come after the pass
      and before any further ack, and must repeat the accepted info, unless the state machine has
      not yet taken the one it holds. */
  predicate Allowed(x: Seen, h: Happening) {
    match h
    case Key => !x.key
    case PeerInfo(i) => x.key && x.info.Some? ==> x.ack && !x.late && (x.waiting || x.info == Some(i))
    case _ => true
  }

  /** How the two machines stand to each other after allowed happenings x. */
  ghost predicate Matched(o: Old, n: New, x: Seen) {
    n.sess.link == P2p && if x.key then MatchedKeyed(o, n, x) else MatchedEarly(o, n, x)
  }

  ghost predicate MatchedEarly(o: Old, n: New, x: Seen) {
    var s := n.sess;
    && !x.ack && !x.late && !x.waiting && !o.keyed && o.status != WaitCloseAck && o.status != InSyncProgress
    && !s.isDead && s.phase == DeviceAuth && s.nodeInfo.None? && !s.closeAckReceived
    && o.saved == s.saved == x.info && n.pending.None? && o.out == NOTHING == n.out
  }

  ghost predicate MatchedKeyed(o: Old, n: New, x: Seen) {
    var s := n.sess;
    && o.keyed && o.saved.None? && s.phase == SyncDeviceInfo && s.saved.None?
    && match x.info
       case None =>
         && !x.late && !x.waiting && !s.isDead && s.nodeInfo.None? && n.pending.None? && s.closeAckReceived == x.ack
         && o.status == (if x.ack then WaitPeerDevInfo else SyncFinish) && o.out == n.out == NOTHING.(infos := 1)
       case Some(i) =>
         && (x.late ==> x.ack)
         && o.status == (if !x.ack then WaitCloseAck else if x.late then WaitPeerDevInfo else AuthPassed)
         && o.out == Outcome(1, 1, if x.ack then 1 else 0, Some(i))
         && if x.waiting then
              && !s.isDead && s.nodeInfo.None? && s.closeAckReceived == x.ack
              && n.pending == Some(i) && n.out == NOTHING.(infos := 1)
            else
              && s.isDead == x.ack && s.nodeInfo == Some(i) && (!x.ack ==> !s.closeAckReceived)
              && (n.pending.Some? ==> s.isDead) && n.out == o.out
  }

  /** The outcomes are the same once the state machine has taken its replayed message. */
  ghost predicate Agree(o: Old, n: New) {
    o.out == NewStep(n, ReplayNow).out
  }

  lemma MatchedAgree(o: Old, n: New, x: Seen)
    requires Matched(o, n, x)
    ensures Agree(o, n)
  {
  }

  lemma StepMatched(o: Old, n: New, x: Seen, h: Happening)
    requires Matched(o, n, x) && Allowed(x, h)
    ensures Matched(OldOn(o, h), NewStep(n, h), See(x, h))
  {
  }

  /** A happening that is not allowed makes the outcomes differ at once. */
  lemma StepDiverges(o: Old, n: New, x: Seen, h: Happening)
    requires Matched(o, n, x) && !Allowed(x, h)
    ensures !Agree(OldOn(o, h), NewStep(n, h))
  {
  }

  predicate Follows(hs: seq<Happening>) {
    forall k :: 0 <= k < |hs| ==> Allowed(SeenIn(hs[..k]), hs[k])
  }

  ghost predicate AgreeAfter(isServer: bool, hs: seq<Happening>) {
    Agree(OldRun(hs), NewRun(isServer, hs))
  }

  lemma FollowsPrefix(hs: seq<Happening>, k: nat)
    requires k <= |hs| && Follows(hs)
    ensures Follows(hs[..k])
  {
    forall j | 0 <= j < k ensures Allowed(SeenIn(hs[..k][..j]), hs[..k][j]) {
      assert hs[..k][..j] == hs[..j];
    }
  }

  lemma {:induction false} RunsMatched(isServer: bool, hs: seq<Happening>)
    requires Follows(hs)
    ensures Matched(OldRun(hs), NewRun(isServer, hs), SeenIn(hs))
  {
    if hs != [] {
      var n := |hs| - 1;
      FollowsPrefix(hs, n);
      RunsMatched(isServer, hs[..n]);
      StepMatched(OldRun(hs[..n]), NewRun(isServer, hs[..n]), SeenIn(hs[..n]), hs[n]);
    }
  }

  /** At the first happening that is not allowed, the outcomes part. */
  lemma FirstStrayDiverges(isServer: bool, hs: seq<Happening>, h: Happening)
    requires Follows(hs) && !Allowed(SeenIn(hs), h)
    ensures !AgreeAfter(isServer, hs + [h])
  {
    RunsMatched(isServer, hs);
    StepDiverges(OldRun(hs), NewRun(isServer, hs), SeenIn(hs), h);
    assert (hs + [h])[..|hs|] == hs;
  }

  lemma {:induction false} StrayIsNoticed(isServer: bool, hs: seq<Happening>)
    requires !Follows(hs)
    ensures exists k :: 0 <= k <= |hs| && !AgreeAfter(isServer, hs[..k])
  {
    var n := |hs| - 1;
    assert hs != [];
    if Follows(hs[..n]) {
      LastStrayNoticed(isServer, hs);
    } else {
      StrayIsNoticed(isServer, hs[..n]);
      var k :| 0 <= k <= n && !AgreeAfter(isServer, hs[..n][..k]);
      assert hs[..n][..k] == hs[..k];
    }
  }

  lemma LastStrayNoticed(isServer: bool, hs: seq<Happening>)
    requires hs != [] && !Follows(hs) && Follows(hs[..|hs| - 1])
    ensures !AgreeAfter(isServer, hs[..|hs|])
  {
    var n := |hs| - 1;
    assert hs == hs[..n] + [hs[n]] && hs[..|hs|] == hs;
    LastIsStray(hs);
    FirstStrayDiverges(isServer, hs[..n], hs[n]);
  }

  lemma LastIsStray(hs: seq<Happening>)
    requires hs != [] && !Follows(hs) && Follows(hs[..|hs| - 1])
    ensures !Allowed(SeenIn(hs[..|hs| - 1]), hs[|hs| - 1])
  {
    var n := |hs| - 1;
    forall k | 0 <= k < n ensures Allowed(SeenIn(hs[..k]), hs[k]) {
      assert hs[..n][..k] == hs[..k] && hs[..n][k] == hs[k];
    }
  }

  /** For every sequence of happenings, in any order and number: the old status handshake and the new
      state machine have the same outcome after every prefix if and only if every happening was
      allowed by what was seen before it. */
  lemma SameOutcomeExactly(isServer: bool, hs: seq<Happening>)
    ensures (forall k :: 0 <= k <= |hs| ==> AgreeAfter(isServer, hs[..k])) <==> Follows(hs)
  {
    if Follows(hs) {
      forall k | 0 <= k <= |hs| ensures AgreeAfter(isServer, hs[..k]) {
        FollowsPrefix(hs, k);
        RunsMatched(isServer, hs[..k]);
        MatchedAgree(OldRun(hs[..k]), NewRun(isServer, hs[..k]), SeenIn(hs[..k]));
      }
    } else {
      StrayIsNoticed(isServer, hs);
    }
  }

  ghost predicate HasInfo(hs: seq<Happening>) {
    exists i :: 0 <= i < |hs| && hs[i].PeerInfo?
  }

  ghost predicate AckAfterKey(hs: seq<Happening>) {
    exists i, j :: 0 <= i < j < |hs| && hs[i] == Key && hs[j] == Ack
  }

  lemma HasInfoGrows(hs: seq<Happening>)
    requires hs != []
    ensures HasInfo(hs) <==> HasInfo(hs[..|hs| - 1]) || hs[|hs| - 1].PeerInfo?
  {
    var n := |hs| - 1;
    assert forall i :: 0 <= i < n ==> hs[..n][i] == hs[i];
  }

  lemma AckAfterKeyGrows(hs: seq<Happening>)
    requires hs != []
    ensures AckAfterKey(hs) <==> AckAfterKey(hs[..|hs| - 1]) || (hs[|hs| - 1] == Ack && Key in hs[..|hs| - 1])
  {
    var n := |hs| - 1;
    assert forall i :: 0 <= i < n ==> hs[..n][i] == hs[i];
  }

  lemma KeyGrows(hs: seq<Happening>)
    requires hs != []
    ensures Key in hs <==> Key in hs[..|hs| - 1] || hs[|hs| - 1] == Key
  {
    assert hs == hs[..|hs| - 1] + [hs[|hs| - 1]];
  }

  /** What the record of happenings means by their positions. */
  lemma {:induction false} SeenExactly(hs: seq<Happening>)
    ensures SeenIn(hs).key <==> Key in hs
    ensures SeenIn(hs).info.Some? <==> HasInfo(hs)
    ensures SeenIn(hs).ack <==> AckAfterKey(hs)
  {
    if hs != [] {
      SeenExactly(hs[..|hs| - 1]);
      KeyGrows(hs);
      HasInfoGrows(hs);
      AckAfterKeyGrows(hs);
    }
  }

  /** One key, and no info once a key and an info are there; infos before the key and acks at any
      time may come in any number. */
  ghost predicate Honest(hs: seq<Happening>) {
    && (forall i, j :: 0 <= i < j < |hs| && hs[i] == Key ==> hs[j] != Key)
    && (forall j :: 0 <= j < |hs| && HasInfo(hs[..j]) && Key in hs[..j] ==> !hs[j].PeerInfo?)
  }

  lemma HonestFollows(hs: seq<Happening>)
    requires Honest(hs)
    ensures Follows(hs)
  {
    forall k | 0 <= k < |hs| ensures Allowed(SeenIn(hs[..k]), hs[k]) {
      SeenExactly(hs[..k]);
      assert forall i :: 0 <= i < k ==> hs[..k][i] == hs[i];
    }
  }

  /** In particular, for every honest order and wherever the replayed message is taken, the two
      handshakes post the same infos, send the same acks, report the same passes and accept the same
      info. Each sends one ack exactly when key and info came, and passes once exactly when an info
      came and an ack came after the key. */
  lemma SameOutcome(isServer: bool, hs: seq<Happening>)
    requires Honest(hs) && NewRun(isServer, hs).pending.None?
    ensures OldRun(hs).out == NewRun(isServer, hs).out
    ensures OldRun(hs).out.acks == if Key in hs && HasInfo(hs) then 1 else 0
    ensures OldRun(hs).out.passes == if HasInfo(hs) && AckAfterKey(hs) then 1 else 0
  {
    HonestFollows(hs);
    RunsMatched(isServer, hs);
    SeenExactly(hs);
  }

  /** Taking the replayed message last always leaves nothing pending, so every order is covered. */
  lemma ReplayDrains(isServer: bool, hs: seq<Happening>)
    requires Follows(hs)
    ensures Follows(hs + [ReplayNow]) && NewRun(isServer, hs + [ReplayNow]).pending.None?
  {
    RunsMatched(isServer, hs);
    FollowsMore(hs, ReplayNow);
    ReplayTaken(OldRun(hs), NewRun(isServer, hs), SeenIn(hs));
    assert (hs + [ReplayNow])[..|hs|] == hs;
  }

  lemma FollowsMore(hs: seq<Happening>, h: Happening)
    requires Follows(hs) && Allowed(SeenIn(hs), h)
    ensures Follows(hs + [h])
  {
    var hs' := hs + [h];
    forall k | 0 <= k < |hs'| ensures Allowed(SeenIn(hs'[..k]), hs'[k]) {
      assert hs'[..k] == hs[..k] && (k == |hs| ==> hs[..k] == hs);
    }
  }

  lemma ReplayTaken(o: Old, n: New, x: Seen)
    requires Matched(o, n, x)
    ensures NewStep(n, ReplayNow).pending.None?
  {
  }

  // ------------------------------------------------------------------ repeated keys, repeated passes

  function Keys(hs: seq<Happening>): nat {
    if hs == [] then 0 else Keys(hs[..|hs| - 1]) + if hs[|hs| - 1] == Key then 1 else 0
  }

  /** The state machine posts its info only when it enters the device-info phase, which it never leaves. */
  predicate PostedOnce(n: New) {
    n.sess.link == P2p && n.out.infos <= if n.sess.phase == SyncDeviceInfo then 1 else 0
  }

  lemma PostedOnceKept(n: New, h: Happening)
    requires PostedOnce(n)
    ensures PostedOnce(NewStep(n, h))
  {
  }

  lemma {:induction false} InfosPosted(isServer: bool, hs: seq<Happening>)
    ensures OldRun(hs).out.infos == Keys(hs) && PostedOnce(NewRun(isServer, hs))
  {
    if hs != [] {
      var n := |hs| - 1;
      InfosPosted(isServer, hs[..n]);
      PostedOnceKept(NewRun(isServer, hs[..n]), hs[n]);
    }
  }

  /** After a second key the outcomes never agree again: the old handshake posts its info for every
      key, the new one once. */
  lemma TwoKeysNeverAgree(isServer: bool, hs: seq<Happening>)
    requires Keys(hs) >= 2
    ensures OldRun(hs).out != NewRun(isServer, hs).out
  {
    InfosPosted(isServer, hs);
  }

  /** The position of the last key, or -1. */
  function LastKey(hs: seq<Happening>): (k: int)
    ensures -1 <= k < |hs|
  {
    if hs == [] then -1 else if hs[|hs| - 1] == Key then |hs| - 1 else LastKey(hs[..|hs| - 1])
  }

  /** An info since the last key; what was saved before the first key counts for it. */
  ghost predicate InfoSince(hs: seq<Happening>) {
    exists i :: 0 <= i < |hs| && hs[i].PeerInfo? && (i > LastKey(hs) || Keys(hs) <= 1)
  }

  ghost predicate AckSince(hs: seq<Happening>) {
    exists i :: 0 <= LastKey(hs) < i < |hs| && hs[i] == Ack
  }

  /** An ack after an info and an ack since the last key, and no info after it. */
  ghost predicate LateSince(hs: seq<Happening>) {
    exists b :: LastKey(hs) < b < |hs| && LateAck(hs, b) && forall j :: b < j < |hs| ==> !hs[j].PeerInfo?
  }

  ghost predicate LateAck(hs: seq<Happening>, b: nat)
    requires b < |hs|
  {
    hs[b] == Ack && InfoSince(hs[..b]) && AckSince(hs[..b])
  }

  /** A happening after hs that completes info and ack, or an info after a further ack. */
  ghost predicate Completes(hs: seq<Happening>, h: Happening) {
    match h
    case PeerInfo(_) => Key in hs && ((!InfoSince(hs) && AckSince(hs)) || LateSince(hs))
    case Ack => Key in hs && InfoSince(hs) && !AckSince(hs)
    case _ => false
  }

  ghost function Completions(hs: seq<Happening>): nat {
    if hs == [] then 0
    else Completions(hs[..|hs| - 1]) + if Completes(hs[..|hs| - 1], hs[|hs| - 1]) then 1 else 0
  }

  lemma SliceOfPrefix(hs: seq<Happening>, n: nat)
    requires n <= |hs|
    ensures forall i :: 0 <= i < n ==> hs[..n][i] == hs[i]
    ensures forall i :: 0 <= i <= n ==> hs[..n][..i] == hs[..i]
  {
  }

  lemma InfoSinceGrows(hs: seq<Happening>)
    requires hs != []
    ensures var n := |hs| - 1;
            InfoSince(hs) <==> if hs[n] == Key then Keys(hs) == 1 && InfoSince(hs[..n])
              else InfoSince(hs[..n]) || hs[n].PeerInfo?
  {
    var n := |hs| - 1;
    SliceOfPrefix(hs, n);
    if InfoSince(hs) {
      var i :| 0 <= i < |hs| && hs[i].PeerInfo? && (i > LastKey(hs) || Keys(hs) <= 1);
      assert i < n ==> hs[..n][i].PeerInfo?;
    }
    if InfoSince(hs[..n]) {
      var i :| 0 <= i < n && hs[..n][i].PeerInfo? && (i > LastKey(hs[..n]) || Keys(hs[..n]) <= 1);
      assert hs[i].PeerInfo?;
    }
  }

  lemma AckSinceGrows(hs: seq<Happening>)
    requires hs != []
    ensures var n := |hs| - 1;
            AckSince(hs) <==> hs[n] != Key && (AckSince(hs[..n]) || (hs[n] == Ack && LastKey(hs[..n]) >= 0))
  {
    var n := |hs| - 1;
    SliceOfPrefix(hs, n);
    if AckSince(hs) {
      var i :| 0 <= LastKey(hs) < i < |hs| && hs[i] == Ack;
      assert i < n ==> hs[..n][i] == Ack;
    }
    if AckSince(hs[..n]) {
      var i :| 0 <= LastKey(hs[..n]) < i < n && hs[..n][i] == Ack;
      assert hs[i] == Ack;
    }
  }

  lemma LateAckOfPrefix(hs: seq<Happening>, n: nat, b: nat)
    requires b < n <= |hs|
    ensures LateAck(hs[..n], b) <==> LateAck(hs, b)
  {
    assert hs[..n][..b] == hs[..b];
  }

  lemma LateSinceStays(hs: seq<Happening>)
    requires hs != [] && LateSince(hs[..|hs| - 1]) && hs[|hs| - 1] != Key && !hs[|hs| - 1].PeerInfo?
    ensures LateSince(hs)
  {
    var n := |hs| - 1;
    var b :| LastKey(hs[..n]) < b < n && LateAck(hs[..n], b) && forall j :: b < j < n ==> !hs[..n][j].PeerInfo?;
    LateAckOfPrefix(hs, n, b);
    forall j | b < j < |hs| ensures !hs[j].PeerInfo? {
      assert j < n ==> hs[..n][j] == hs[j];
    }
  }

  lemma LateSinceFrom(hs: seq<Happening>)
    requires hs != [] && LateSince(hs)
    ensures var n := |hs| - 1;
            && hs[n] != Key && !hs[n].PeerInfo?
            && (LateSince(hs[..n]) || (hs[n] == Ack && InfoSince(hs[..n]) && AckSince(hs[..n])))
  {
    var n := |hs| - 1;
    var b :| LastKey(hs) < b < |hs| && LateAck(hs, b) && forall j :: b < j < |hs| ==> !hs[j].PeerInfo?;
    if b < n {
      LateAckOfPrefix(hs, n, b);
      assert forall j :: b < j < n ==> hs[..n][j] == hs[j];
    }
  }

  lemma LateSinceGrows(hs: seq<Happening>)
    requires hs != []
    ensures var n := |hs| - 1;
            LateSince(hs) <==>
              && hs[n] != Key && !hs[n].PeerInfo?
              && (LateSince(hs[..n]) || (hs[n] == Ack && InfoSince(hs[..n]) && AckSince(hs[..n])))
  {
    var n := |hs| - 1;
    if LateSince(hs) { LateSinceFrom(hs); }
    if hs[n] != Key && !hs[n].PeerInfo? && LateSince(hs[..n]) {
      LateSinceStays(hs);
    } else if hs[n] == Ack && InfoSince(hs[..n]) && AckSince(hs[..n]) {
      assert LateAck(hs, n);
    }
  }

  lemma {:induction false} KeysCounted(hs: seq<Happening>)
    ensures Key in hs <==> LastKey(hs) >= 0
    ensures Key in hs <==> Keys(hs) >= 1
  {
    if hs != [] {
      KeysCounted(hs[..|hs| - 1]);
      KeyGrows(hs);
    }
  }

  /** How the status of the old handshake follows from the positions of the happenings. */
  ghost predicate OldStands(o: Old, key: bool, info: bool, ack: bool, late: bool) {
    && o.keyed == key && (key ==> o.saved.None?) && (!key ==> (o.saved.Some? <==> info) && !ack)
    && (late ==> key && info && ack) && o.status != InSyncProgress && (!key ==> o.status != WaitCloseAck)
    && (key ==> o.status == if late then WaitPeerDevInfo
                            else if info && ack then AuthPassed
                            else if info then WaitCloseAck
                            else if ack then WaitPeerDevInfo else SyncFinish)
  }

  lemma OldStep(o: Old, key: bool, info: bool, ack: bool, late: bool, h: Happening)
    requires OldStands(o, key, info, ack, late)
    ensures match h
            case Key => OldStands(OldOn(o, h), true, !key && info, false, false)
            case PeerInfo(_) => OldStands(OldOn(o, h), key, true, ack, false)
            case Ack => OldStands(OldOn(o, h), key, info, ack || key, late || (key && info && ack))
            case ReplayNow => OldStands(OldOn(o, h), key, info, ack, late)
    ensures OldOn(o, h).out.passes == o.out.passes +
              if (h.PeerInfo? && key && ((!info && ack) || late)) || (h == Ack && key && info && !ack) then 1 else 0
  {
  }

  lemma OldStepAcks(o: Old, key: bool, info: bool, ack: bool, late: bool, h: Happening)
    requires OldStands(o, key, info, ack, late)
    ensures OldOn(o, h).out.acks == o.out.acks +
              if (h == Key && !key && info) || (h.PeerInfo? && key && (!info || late)) then 1 else 0
  {
  }

  lemma SinceGrows(hs: seq<Happening>)
    requires hs != []
    ensures var n := |hs| - 1;
            var key, info := Key in hs[..n], InfoSince(hs[..n]);
            var ack, late := AckSince(hs[..n]), LateSince(hs[..n]);
            match hs[n]
            case Key => Key in hs && (InfoSince(hs) <==> !key && info) && !AckSince(hs) && !LateSince(hs)
            case PeerInfo(_) => (Key in hs <==> key) && InfoSince(hs) && (AckSince(hs) <==> ack) && !LateSince(hs)
            case Ack =>
              && (Key in hs <==> key) && (InfoSince(hs) <==> info) && (AckSince(hs) <==> ack || key)
              && (LateSince(hs) <==> late || (info && ack))
            case ReplayNow =>
              (Key in hs <==> key) && (InfoSince(hs) <==> info) && (AckSince(hs) <==> ack) && (LateSince(hs) <==> late)
  {
    KeyGrows(hs);
    KeysCounted(hs[..|hs| - 1]);
    InfoSinceGrows(hs);
    AckSinceGrows(hs);
    LateSinceGrows(hs);
  }

  /** For every sequence of happenings the old handshake reports exactly one pass per completion, so
      at most one exactly when there is at most one completion. */
  lemma {:induction false} OldPassesExactly(hs: seq<Happening>)
    ensures OldStands(OldRun(hs), Key in hs, InfoSince(hs), AckSince(hs), LateSince(hs))
    ensures OldRun(hs).out.passes == Completions(hs)
  {
    if hs != [] {
      var n := |hs| - 1;
      OldPassesExactly(hs[..n]);
      OldStep(OldRun(hs[..n]), Key in hs[..n], InfoSince(hs[..n]), AckSince(hs[..n]), LateSince(hs[..n]), hs[n]);
      SinceGrows(hs);
    }
  }

  /** A happening after hs that the old handshake answers with an ack: the first key when an info is
      there, and an info when none came since the last key or the last one was followed by a late ack. */
  ghost predicate Answered(hs: seq<Happening>, h: Happening) {
    match h
    case Key => Key !in hs && InfoSince(hs)
    case PeerInfo(_) => Key in hs && (!InfoSince(hs) || LateSince(hs))
    case _ => false
  }

  ghost function Answers(hs: seq<Happening>): nat {
    if hs == [] then 0
    else Answers(hs[..|hs| - 1]) + if Answered(hs[..|hs| - 1], hs[|hs| - 1]) then 1 else 0
  }

  lemma {:induction false} OldAcksExactly(hs: seq<Happening>)
    ensures OldRun(hs).out.acks == Answers(hs)
  {
    if hs != [] {
      var n := |hs| - 1;
      OldAcksExactly(hs[..n]);
      OldPassesExactly(hs[..n]);
      OldStepAcks(OldRun(hs[..n]), Key in hs[..n], InfoSince(hs[..n]), AckSince(hs[..n]), LateSince(hs[..n]), hs[n]);
    }
  }

  function LastInfo(hs: seq<Happening>): Option<Info> {
    if hs == [] then None
    else if hs[|hs| - 1].PeerInfo? then Some(hs[|hs| - 1].info) else LastInfo(hs[..|hs| - 1])
  }

  /** What the old handshake holds and what it accepted: the last info. Before the key only an ack
      moves its status. */
  predicate Holds(o: Old, key: bool, acked: bool, last: Option<Info>) {
    && o.keyed == key && o.status != InSyncProgress
    && (if key then o.saved.None? && o.out.accepted == last
        else
          && o.saved == last && o.out.accepted.None?
          && o.status == if acked then WaitPeerDevInfo else InAuthProgress)
  }

  lemma OldStepHolds(o: Old, key: bool, acked: bool, last: Option<Info>, h: Happening)
    requires Holds(o, key, acked, last)
    ensures Holds(OldOn(o, h), key || h == Key, acked || h == Ack, if h.PeerInfo? then Some(h.info) else last)
  {
  }

  lemma AckGrows(hs: seq<Happening>)
    requires hs != []
    ensures Ack in hs <==> Ack in hs[..|hs| - 1] || hs[|hs| - 1] == Ack
  {
    assert hs == hs[..|hs| - 1] + [hs[|hs| - 1]];
  }

  /** For every sequence of happenings: what the old handshake has done is one info per key, one ack
      per answer, one pass per completion, and it accepted the last info once there was a key. */
  lemma {:induction false} OldOutcomeExactly(hs: seq<Happening>)
    ensures Holds(OldRun(hs), Key in hs, Ack in hs, LastInfo(hs))
    ensures OldRun(hs).out == Outcome(Keys(hs), Answers(hs), Completions(hs), if Key in hs then LastInfo(hs) else None)
  {
    OldPassesExactly(hs);
    OldAcksExactly(hs);
    InfosPosted(false, hs);
    if hs != [] {
      var n := |hs| - 1;
      OldOutcomeExactly(hs[..n]);
      OldStepHolds(OldRun(hs[..n]), Key in hs[..n], Ack in hs[..n], LastInfo(hs[..n]), hs[n]);
      KeyGrows(hs);
      AckGrows(hs);
    }
  }

  /** A late ack: an ack before which came an info, and a key followed by another ack. */
  ghost predicate LateAckBefore(hs: seq<Happening>) {
    exists b :: 0 <= b < |hs| && hs[b] == Ack && HasInfo(hs[..b]) && AckAfterKey(hs[..b])
  }

  ghost predicate InfoAfterLateAck(hs: seq<Happening>) {
    exists j :: 0 <= j < |hs| && hs[j].PeerInfo? && LateAckBefore(hs[..j])
  }

  lemma LateAckBeforeGrows(hs: seq<Happening>)
    requires hs != []
    ensures var n := |hs| - 1;
            LateAckBefore(hs) <==> LateAckBefore(hs[..n]) || (hs[n] == Ack && HasInfo(hs[..n]) && AckAfterKey(hs[..n]))
  {
    var n := |hs| - 1;
    SliceOfPrefix(hs, n);
    if LateAckBefore(hs) {
      var b :| 0 <= b < |hs| && hs[b] == Ack && HasInfo(hs[..b]) && AckAfterKey(hs[..b]);
      assert b < n ==> hs[..n][b] == Ack && hs[..n][..b] == hs[..b];
    }
    if LateAckBefore(hs[..n]) {
      var b :| 0 <= b < n && hs[..n][b] == Ack && HasInfo(hs[..n][..b]) && AckAfterKey(hs[..n][..b]);
      assert hs[b] == Ack && hs[..n][..b] == hs[..b];
    }
  }

  lemma InfoAfterLateAckGrows(hs: seq<Happening>)
    requires hs != []
    ensures var n := |hs| - 1;
            InfoAfterLateAck(hs) <==> InfoAfterLateAck(hs[..n]) || (hs[n].PeerInfo? && LateAckBefore(hs[..n]))
  {
    var n := |hs| - 1;
    SliceOfPrefix(hs, n);
    if InfoAfterLateAck(hs) {
      var j :| 0 <= j < |hs| && hs[j].PeerInfo? && LateAckBefore(hs[..j]);
      assert j < n ==> hs[..n][j].PeerInfo? && hs[..n][..j] == hs[..j];
    }
    if InfoAfterLateAck(hs[..n]) {
      var j :| 0 <= j < n && hs[..n][j].PeerInfo? && LateAckBefore(hs[..n][..j]);
      assert hs[j].PeerInfo? && hs[..n][..j] == hs[..j];
    }
  }

  /** With at most one key the last key is the only one. */
  lemma {:induction false} OneKeySince(hs: seq<Happening>)
    requires Keys(hs) <= 1
    ensures (InfoSince(hs) <==> HasInfo(hs)) && (AckSince(hs) <==> AckAfterKey(hs)) && (AckSince(hs) ==> Key in hs)
    ensures LateSince(hs) || InfoAfterLateAck(hs) <==> LateAckBefore(hs)
    ensures LateAckBefore(hs) ==> HasInfo(hs) && AckAfterKey(hs)
  {
    if hs != [] {
      OneKeySince(hs[..|hs| - 1]);
      SinceGrows(hs);
      KeysCounted(hs[..|hs| - 1]);
      HasInfoGrows(hs);
      AckAfterKeyGrows(hs);
      LateAckBeforeGrows(hs);
      InfoAfterLateAckGrows(hs);
    }
  }

  lemma {:induction false} OneKeyCompletions(hs: seq<Happening>)
    requires Keys(hs) <= 1
    ensures if InfoAfterLateAck(hs) then Completions(hs) >= 2
            else Completions(hs) == if HasInfo(hs) && AckAfterKey(hs) then 1 else 0
  {
    if hs != [] {
      var n := |hs| - 1;
      OneKeyCompletions(hs[..n]);
      OneKeySince(hs[..n]);
      KeysCounted(hs[..n]);
      HasInfoGrows(hs);
      AckAfterKeyGrows(hs);
      InfoAfterLateAckGrows(hs);
    }
  }

  /** With one key, the old handshake reports more than one pass if and only if an info follows an
      ack before which came an info, and a key followed by another ack. */
  lemma OnePassExactly(hs: seq<Happening>)
    requires Keys(hs) <= 1
    ensures OldRun(hs).out.passes <= 1 <==> !InfoAfterLateAck(hs)
  {
    OldPassesExactly(hs);
    OneKeyCompletions(hs);
  }

  lemma Snoc(hs: seq<Happening>, h: Happening)
    ensures OldRun(hs + [h]) == OldOn(OldRun(hs), h)
    ensures NewRun(false, hs + [h]) == NewStep(NewRun(false, hs), h)
  {
    assert (hs + [h])[..|hs|] == hs;
  }

  lemma KeyThenInfo(i: Info)
    ensures OldRun([Key, PeerInfo(i)]) == Old(WaitCloseAck, true, None, Outcome(1, 1, 0, Some(i)))
    ensures NewRun(false, [Key, PeerInfo(i)]) ==
              New(Session(P2p, false, SyncDeviceInfo, None, Some(i), false, false), None, Outcome(1, 1, 0, Some(i)))
  {
    Snoc([], Key);
    assert [] + [Key] == [Key];
    Snoc([Key], PeerInfo(i));
    assert [Key] + [PeerInfo(i)] == [Key, PeerInfo(i)];
  }

  /** A second key makes the auth manager forget that it waits for the ack: only the new machine passes. */
  lemma SecondKeyDiffers(i: Info)
    ensures OldRun([Key, PeerInfo(i), Key, Ack]).out.passes == 0
    ensures NewRun(false, [Key, PeerInfo(i), Key, Ack]).out.passes == 1
  {
    KeyThenInfo(i);
    var b := [Key, PeerInfo(i)];
    Snoc(b, Key);
    Snoc(b + [Key], Ack);
    assert b + [Key] + [Ack] == [Key, PeerInfo(i), Key, Ack];
  }

  /** A second peer info is acked again by the new machine only. */
  lemma SecondInfoDiffers(i: Info)
    ensures OldRun([Key, PeerInfo(i), PeerInfo(i)]).out.acks == 1
    ensures NewRun(false, [Key, PeerInfo(i), PeerInfo(i)]).out.acks == 2
  {
    KeyThenInfo(i);
    var b := [Key, PeerInfo(i)];
    Snoc(b, PeerInfo(i));
    assert b + [PeerInfo(i)] == [Key, PeerInfo(i), PeerInfo(i)];
  }

  /** After its pass the auth manager can be led to report a second one. */
  lemma PassReportedTwice(i: Info)
    ensures OldRun([Key, PeerInfo(i), Ack, Ack, PeerInfo(i)]).out.passes == 2
  {
    KeyThenInfo(i);
    var b := [Key, PeerInfo(i)];
    Snoc(b, Ack);
    Snoc(b + [Ack], Ack);
    Snoc(b + [Ack] + [Ack], PeerInfo(i));
    assert b + [Ack] + [Ack] + [PeerInfo(i)] == [Key, PeerInfo(i), Ack, Ack, PeerInfo(i)];
  }

  // ------------------------------------------------------------------ the auth manager object

  /** One auth manager on a P2P link; every post succeeds and the key store holds this manager's
      sequence number from the moment the key is stored. */
  class AuthManager {
    var status: Status
    var seqInKeyList: bool
    var encryptDevData: Option<Info>
    var out: Outcome

    ghost function Snapshot(): Old
      reads this
    {
      Old(status, seqInKeyList, encryptDevData, out)
    }

    constructor ()
      ensures Snapshot() == OldStart()
    {
      status, seqInKeyList, encryptDevData, out := InAuthProgress, false, None, NOTHING;
    }

    method OnSessionKeyReturned()
      modifies this
      ensures Snapshot() == OldOnKey(old(Snapshot()))
    {
      status := InSyncProgress;
      seqInKeyList := true;
      PostSyncData();
    }

    /** Posting the own device info finishes the sync and takes up a saved peer info. */
    method PostSyncData()
      requires seqInKeyList
      modifies this
      ensures Snapshot() == OldOnKey(old(Snapshot()))
    {
      out := out.(infos := out.infos + 1);
      status := SyncFinish;
      if encryptDevData.Some? {
        HandlePeerSyncDeviceInfo(encryptDevData.value);
        encryptDevData := None;
      }
    }

    method HandlePeerSyncDeviceInfo(info: Info)
      modifies this
      ensures Snapshot() == OldOnInfo(old(Snapshot()), info)
    {
      if !seqInKeyList || status == InSyncProgress {
        encryptDevData := Some(info);
        return;
      }
      ReportSyncDeviceInfoResults(info);
    }

    method ReportSyncDeviceInfoResults(info: Info)
      modifies this
      ensures Snapshot() == OldReport(old(Snapshot()), info)
    {
      out := out.(accepted := Some(info));
      if status == SyncFinish {
        out := out.(acks := out.acks + 1);
        status := WaitCloseAck;
      } else if status == WaitPeerDevInfo {
        out := out.(acks := out.acks + 1);
        status := AuthPassed;
        out := out.(passes := out.passes + 1);
      }
    }

    method ReceiveCloseAck()
      modifies this
      ensures Snapshot() == OldOnAck(old(Snapshot()))
    {
      if status == WaitCloseAck {
        status := AuthPassed;
        out := out.(passes := out.passes + 1);
      } else {
        status := WaitPeerDevInfo;
      }
    }
  }
}
