/** The looper object on its pointer ring. Each method is one critical section of the source, and
    is proved to take the abstract state by exactly the corresponding step of `LooperRuns`. */
module MessageLooper {
  import opened Bits
  import opened IntrusiveList
  import opened LooperRuns
  import opened Options

  /** The place of the first message that is due later than m, or the end. */
  ghost predicate InsertionPoint(s: seq<Msg>, m: Msg, k: nat) {
    && k <= |s| && (forall i :: 0 <= i < k ==> s[i].time <= m.time)
    && (k < |s| ==> s[k].time > m.time)
  }

  lemma {:induction false} InsertAt(s: seq<Msg>, m: Msg, k: nat)
    requires InsertionPoint(s, m, k)
    ensures InsertByTime(s, m) == s[..k] + [m] + s[k..]
  {
    if k == 0 {
      assert s[..0] + [m] + s[0..] == [m] + s;
    } else {
      InsertAt(s[1..], m, k - 1);
      Regroup(s, m, k);
    }
  }

  lemma Regroup(s: seq<Msg>, m: Msg, k: nat)
    requires 0 < k <= |s|
    ensures [s[0]] + (s[1..][..k - 1] + [m] + s[1..][k - 1..]) == s[..k] + [m] + s[k..]
  {
    assert s[..k] == [s[0]] + s[1..][..k - 1] && s[1..][k - 1..] == s[k..];
  }

  lemma {:induction false} AllMatch(s: seq<Msg>)
    ensures Matching(s, m => true) == s && Without(s, m => true) == []
  {
    if s != [] {
      AllMatch(s[..|s| - 1]);
      assert s == s[..|s| - 1] + [s[|s| - 1]];
    }
  }

  /** The nodes with one more linked in at position k. */
  ghost function Inserted(nodes: seq<ListNode<Msg>>, node: ListNode<Msg>, k: nat): seq<ListNode<Msg>>
    requires k <= |nodes|
  {
    nodes[..k] + [node] + nodes[k..]
  }

  lemma LinkedRing(head: ListNode<Msg>, nodes: seq<ListNode<Msg>>, node: ListNode<Msg>, k: nat)
    requires k <= |nodes|
    ensures var f, at := [head] + nodes, if k < |nodes| then k + 1 else 0;
            (if at == 0 then f + [node] else f[..at] + [node] + f[at..]) == [head] + Inserted(nodes, node, k)
  {
    var f := [head] + nodes;
    if k < |nodes| {
      assert f[..k + 1] == [head] + nodes[..k] && f[k + 1..] == nodes[k..];
    } else {
      assert nodes[..k] == nodes && nodes[k..] == [];
    }
  }

  lemma LinkedEntries(nodes: seq<ListNode<Msg>>, node: ListNode<Msg>, k: nat)
    requires k <= |nodes|
    ensures Entries(Inserted(nodes, node, k)) == Entries(nodes)[..k] + [node.entry] + Entries(nodes)[k..]
  {
  }

  lemma LinkedNodes(head: ListNode<Msg>, nodes: seq<ListNode<Msg>>, node: ListNode<Msg>, k: nat)
    requires k <= |nodes|
    ensures Nodes([head] + Inserted(nodes, node, k)) == Nodes([head] + nodes) + {node}
  {
    assert nodes == nodes[..k] + nodes[k..];
    assert forall x :: x in Inserted(nodes, node, k) <==> x in nodes || x == node;
  }

  /** The part of the abstract state that the object stores. */
  datatype Visible = Visible(pending: seq<Msg>, current: Option<Msg>, stop: bool, running: bool, destroyed: bool,
                             msgSize: nat, freed: seq<Freed>)

  ghost function VisibleOf(l: Looper): Visible {
    Visible(l.pending, l.current, l.stop, l.running, l.destroyed, l.msgSize, l.freed)
  }

  /** What a post changes in the stored part. */
  lemma PostFields(l: Looper, m: Msg, l': Looper)
    requires m.order == |l.posted| && l' == Post(l, m.time, m.handler, m.what)
    ensures m.handler == 0 || l.stop ==> VisibleOf(l') == VisibleOf(l).(freed := l.freed + [Freed(m, Rejected)])
    ensures m.handler != 0 && !l.stop ==>
              VisibleOf(l') == VisibleOf(l).(pending := InsertByTime(l.pending, m), msgSize := U32(l.msgSize + 1))
  {
  }

  /** The stored part after the first message was taken at a clock reading, if it was due. */
  ghost function Taken(v: Visible, now: int): Visible {
    if !v.stop && v.pending != [] && now >= v.pending[0].time then
      v.(pending := v.pending[1..], current := Some(v.pending[0]), msgSize := U32(v.msgSize - 1))
    else v
  }

  lemma TakenParts(v: Visible, nodes: seq<ListNode<Msg>>, now: int)
    requires v.pending == Entries(nodes)
    ensures Taken(v, now) ==
              if !v.stop && nodes != [] && now >= nodes[0].entry.time then
                v.(pending := Entries(nodes[1..]), current := Some(nodes[0].entry), msgSize := U32(v.msgSize - 1))
              else v
  {
    if nodes != [] { assert Entries(nodes)[1..] == Entries(nodes[1..]); }
  }

  lemma TakeFields(l: Looper, now: int, l': Looper)
    requires !l.destroyed && l.running && l.current.None? && now >= l.now && l' == TakeNext(Step(l, Tick(now)))
    ensures VisibleOf(l') == Taken(VisibleOf(l), now)
  {
  }

  class LooperContext {
    const msgHead: ListNode<Msg>
    var stop: bool
    var running: bool
    var currentMsg: Option<Msg>
    var msgSize: nat
    /** What FreeSoftBusMsg was called on, in order. */
    var freed: seq<Freed>
    ghost var nodes: seq<ListNode<Msg>>
    ghost var state: Looper

    /** The object's own fields, with the ring read as a sequence. */
    ghost function Fields(): Visible
      reads this
    {
      Visible(Entries(nodes), currentMsg, stop, running, false, msgSize, freed)
    }

    ghost predicate Valid()
      reads this, msgHead, nodes
    {
      Ring([msgHead] + nodes) && Fields() == VisibleOf(state)
    }

    ghost function Repr(): set<object>
      reads this
    {
      {this} + Nodes([msgHead] + nodes)
    }

    constructor (sentinel: Msg, now: int)
      ensures Valid() && fresh(Repr()) && state == Begin(now)
    {
      msgHead := new ListNode(sentinel);
      stop, running, currentMsg, msgSize, freed := false, true, None, 0, [];
      nodes, state := [], Begin(now);
      new;
      assert [msgHead] + nodes == [msgHead];
    }

    /** The search loop of PostMessageAtTime. */
    method FindInsertionPoint(m: Msg) returns (item: ListNode<Msg>, ghost k: nat)
      requires Ring([msgHead] + nodes)
      ensures InsertionPoint(Entries(nodes), m, k)
      ensures k <= |nodes| && item == if k < |nodes| then nodes[k] else msgHead
    {
      ghost var ring := [msgHead] + nodes;
      k := 0;
      assert nodes[0..] == nodes;
      var nextItem: ListNode<Msg>;
      item, nextItem := First(msgHead, nodes, ring);
      while item != msgHead
        invariant k <= |nodes| && Cursor(msgHead, nodes[k..], item, nextItem)
        invariant forall i :: 0 <= i < k ==> nodes[i].entry.time <= m.time
        decreases |nodes| - k
      {
        if item.entry.time > m.time {
          return;
        }
        item, k := nextItem, k + 1;
        assert ring == [msgHead] + nodes[..k] + nodes[k..];
        nextItem := FollowNext(item, msgHead, nodes[..k], nodes[k..], ring);
      }
    }

    /** The pointer work of PostMessageAtTime. */
    method Link(newNode: ListNode<Msg>)
      requires Ring([msgHead] + nodes) && newNode !in [msgHead] + nodes
      modifies this`nodes, Nodes([msgHead] + nodes), newNode
      ensures Ring([msgHead] + nodes) && Nodes([msgHead] + nodes) == old(Nodes([msgHead] + nodes)) + {newNode}
      ensures Entries(nodes) == InsertByTime(old(Entries(nodes)), newNode.entry)
    {
      ghost var ring := [msgHead] + nodes;
      var item, k := FindInsertionPoint(newNode.entry);
      InsertAt(Entries(nodes), newNode.entry, k);
      ListTailInsert(item, newNode, ring, if k < |nodes| then k + 1 else 0);
      LinkedRing(msgHead, nodes, newNode, k);
      LinkedEntries(nodes, newNode, k);
      LinkedNodes(msgHead, nodes, newNode, k);
      nodes := Inserted(nodes, newNode, k);
    }

    method Reject(msgPost: Msg, ghost state': Looper)
      requires Valid() && VisibleOf(state') == VisibleOf(state).(freed := state.freed + [Freed(msgPost, Rejected)])
      modifies this
      ensures Valid() && state == state' && nodes == old(nodes)
    {
      freed := freed + [Freed(msgPost, Rejected)];
      state := state';
    }

    method Accept(msgPost: Msg, ghost state': Looper)
      requires Valid() && VisibleOf(state') ==
               VisibleOf(state).(pending := InsertByTime(state.pending, msgPost), msgSize := U32(state.msgSize + 1))
      modifies Repr()
      ensures Valid() && state == state' && fresh(Repr() - old(Repr()))
    {
      var newNode := new ListNode(msgPost);
      Link(newNode);
      msgSize := U32(msgSize + 1);
      state := state';
    }

    /** A message without handler, or posted after the stop, is freed at once; otherwise it goes in
        front of the first message that is due later. */
    method PostMessageAtTime(msgPost: Msg)
      requires Valid() && msgPost.order == |state.posted|
      modifies Repr()
      ensures Valid() && fresh(Repr() - old(Repr()))
      ensures state == Post(old(state), msgPost.time, msgPost.handler, msgPost.what)
    {
      ghost var state' := Post(state, msgPost.time, msgPost.handler, msgPost.what);
      PostFields(state, msgPost, state');
      if msgPost.handler == 0 || stop {
        Reject(msgPost, state');
      } else {
        Accept(msgPost, state');
      }
    }

    /** LooperPostMessage and LooperPostMessageDelay: the time stamp is the clock plus the delay. */
    method PostMessageDelay(order: nat, handler: nat, what: int, now: int, delayMillis: nat)
      requires Valid() && order == |state.posted|
      modifies Repr()
      ensures Valid() && fresh(Repr() - old(Repr()))
      ensures state == Post(old(state), now + delayMillis * 1000, handler, what)
    {
      var msg := Msg(order, now + delayMillis * 1000, handler, what);
      PostMessageAtTime(msg);
    }

    /** Whether the loop thread takes the first node. */
    ghost predicate Due(now: int)
      reads this
    {
      !stop && nodes != [] && now >= nodes[0].entry.time
    }

    /** The pointer work of the loop thread: the first node, if it is due. */
    method UnlinkDue(now: int) returns (msg: Option<Msg>)
      requires Ring([msgHead] + nodes)
      modifies this`nodes, Nodes([msgHead] + nodes)
      ensures Ring([msgHead] + nodes) && Nodes([msgHead] + nodes) <= old(Nodes([msgHead] + nodes))
      ensures msg == if old(Due(now)) then Some(old(nodes)[0].entry) else None
      ensures nodes == if old(Due(now)) then old(nodes)[1..] else old(nodes)
    {
      msg := None;
      ghost var ring := [msgHead] + nodes;
      var empty := IsListEmpty(msgHead, ring);
      if !stop && !empty {
        var item, nextItem := First(msgHead, nodes, ring);
        if now >= item.entry.time {
          msg := Some(item.entry);
          assert ring == [msgHead] + [] + nodes;
          DropFirst(item, msgHead, [], nodes);
          nodes := nodes[1..];
          assert [msgHead] + nodes == [msgHead] + [] + nodes;
        }
      }
    }

    /** The fields after the list was changed. */
    method Hold(msg: Option<Msg>, ghost state': Looper)
      requires Ring([msgHead] + nodes)
      requires VisibleOf(state') ==
                 Fields().(current := msg, msgSize := if msg.Some? then U32(msgSize - 1) else msgSize)
      modifies this`msgSize, this`currentMsg, this`state
      ensures Valid() && state == state' && currentMsg == msg
    {
      if msg.Some? {
        msgSize := U32(msgSize - 1);
      }
      currentMsg := msg;
      state := state';
    }

    method Take(now: int, ghost state': Looper) returns (msg: Option<Msg>)
      requires Valid() && currentMsg.None? && VisibleOf(state') == Taken(VisibleOf(state), now)
      modifies Repr()
      ensures Valid() && state == state' && Repr() <= old(Repr()) && msg == currentMsg
    {
      TakenParts(Fields(), nodes, now);
      msg := UnlinkDue(now);
      Hold(msg, state');
    }

    /** The loop thread between taking and releasing the lock: it reads the clock, which never goes
        back, and takes the first message if that is due. */
    method TakeDue(now: int) returns (msg: Option<Msg>)
      requires Valid() && running && currentMsg.None? && now >= state.now
      modifies Repr()
      ensures Valid() && Repr() <= old(Repr()) && state == TakeNext(Step(old(state), Tick(now))) && msg == currentMsg
    {
      ghost var state' := TakeNext(Step(state, Tick(now)));
      TakeFields(state, now, state');
      msg := Take(now, state');
    }

    /** After the handler returned. */
    method FinishHandling()
      requires Valid() && currentMsg.Some?
      modifies this
      ensures Valid() && nodes == old(nodes) && state == FinishCurrent(old(state))
    {
      freed := freed + [Freed(currentMsg.value, Handled)];
      currentMsg := None;
      state := FinishCurrent(state);
    }

    /** The pointer work of removal and destruction. */
    method Unlink(p: Msg -> bool) returns (removed: seq<Msg>)
      requires Ring([msgHead] + nodes)
      modifies this`nodes, Nodes([msgHead] + nodes)
      ensures Ring([msgHead] + nodes) && Nodes([msgHead] + nodes) <= old(Nodes([msgHead] + nodes))
      ensures Entries(nodes) == Without(old(Entries(nodes)), p) && removed == Matching(old(Entries(nodes)), p)
    {
      var visited;
      visited, removed := RemoveWhere(msgHead, p, nodes);
      SurvivorsEntries(nodes, p);
      nodes := Survivors(nodes, p);
    }

    /** Removal while the loop is running: exactly the matching messages go, the rest keep their order. */
    method RemoveMessageCustom(handler: nat, custom: Msg -> bool)
      requires Valid()
      modifies Repr()
      ensures Valid() && Repr() <= old(Repr()) && state == RemoveMatching(old(state), ToRemove(handler, custom))
      ensures !old(running) || old(stop) ==> state == old(state) && Fields() == old(Fields())
      ensures old(running) && !old(stop) ==>
                && Entries(nodes) == Without(old(Entries(nodes)), (m: Msg) => m.handler == handler && custom(m))
                && freed == old(freed) + Tagged(Matching(old(Entries(nodes)),
                                                        (m: Msg) => m.handler == handler && custom(m)), Removed)
    {
      if !running || stop {
        return;
      }
      SameTest(Entries(nodes), ToRemove(handler, custom), (m: Msg) => m.handler == handler && custom(m));
      var removed := Unlink(ToRemove(handler, custom));
      freed := freed + Tagged(removed, Removed);
      msgSize := U32(msgSize - |removed|);
      state := RemoveMatching(state, ToRemove(handler, custom));
    }

    method RequestStop()
      requires Valid()
      modifies this
      ensures Valid() && nodes == old(nodes) && state == Step(old(state), Stop)
    {
      stop := true;
      state := state.(stop := true);
    }

    method LeaveLoop(needDestroy: bool)
      requires Valid() && currentMsg.None? && (stop || needDestroy)
      modifies this
      ensures Valid() && nodes == old(nodes) && state == Step(old(state), Exit(needDestroy))
    {
      running := false;
      state := state.(running := false);
    }

    /** The end of DestroyLooper, once the loop thread has left: every remaining message is freed. */
    method Destroy()
      requires Valid() && stop && !running
      modifies Repr()
      ensures state == DestroyRest(old(state)) && state.destroyed && freed == state.freed && Ring([msgHead])
    {
      AllMatch(Entries(nodes));
      var removed := Unlink(m => true);
      assert [msgHead] + nodes == [msgHead];
      freed := freed + Tagged(removed, Destroyed);
      state := DestroyRest(state);
    }
  }
}
