/** The delayed-message looper as a machine over whole runs.

    Each critical section of the source is one step. A message carries its due time and the
    number of posts before it; `late` collects the messages that were inserted after a message
    with a later due time had already been dispatched, which can happen only because the source
    takes the time stamp before it takes the lock. */
module LooperRuns {
  import opened Bits
  import opened IntrusiveList
  import opened Options

  /** `handler == 0` is a message without handler. */
  datatype Msg = Msg(order: nat, time: int, handler: nat, what: int)

  datatype Fate = Rejected | Removed | Handled | Destroyed

  datatype Freed = Freed(msg: Msg, fate: Fate)

  datatype Dispatch = Dispatch(msg: Msg, at: int)

  datatype Looper = Looper(pending: seq<Msg>, current: Option<Msg>, stop: bool, running: bool, destroyed: bool,
                           msgSize: nat, now: int, posted: seq<Msg>, freed: seq<Freed>, log: seq<Dispatch>,
                           late: set<nat>)

  datatype Event =
    | Tick(now: int)                               // the clock moves on
    | PostAt(time: int, handler: nat, what: int)   // PostMessageAtTime with a time stamp taken earlier
    | PostDelay(delay: nat, handler: nat, what: int) // stamp and insertion in one step
    | Take                                         // the loop thread takes a due message
    | Finish                                       // the handler returned, the message is freed
    | Remove(handler: nat, custom: Msg -> bool)
    | Stop                                         // DestroyLooper sets stop
    | Exit(needDestroy: bool)                      // the loop thread ends
    | Destroy                                      // DestroyLooper, after the loop thread ended

  /** Start of a looper whose thread is running. */
  function Begin(now: int): Looper {
    Looper([], None, false, true, false, 0, now, [], [], [], {})
  }

  /** The insertion of the source: in front of the first message that is due later. */
  function InsertByTime(s: seq<Msg>, m: Msg): seq<Msg> {
    if s == [] then [m]
    else if s[0].time > m.time then [m] + s
    else [s[0]] + InsertByTime(s[1..], m)
  }

  predicate IsLate(log: seq<Dispatch>, time: int) {
    exists i :: 0 <= i < |log| && log[i].msg.time > time
  }

  function Post(l: Looper, time: int, handler: nat, what: int): Looper {
    var m := Msg(|l.posted|, time, handler, what);
    var l1 := l.(posted := l.posted + [m]);
    if handler == 0 || l.stop then l1.(freed := l.freed + [Freed(m, Rejected)])
    else l1.(pending := InsertByTime(l.pending, m), msgSize := U32(l.msgSize + 1),
             late := if IsLate(l.log, time) then l.late + {m.order} else l.late)
  }

  function Tagged(s: seq<Msg>, fate: Fate): (r: seq<Freed>)
    ensures |r| == |s|
  {
    seq(|s|, i requires 0 <= i < |s| => Freed(s[i], fate))
  }

  function ToRemove(handler: nat, custom: Msg -> bool): Msg -> bool {
    (m: Msg) => m.handler == handler && custom(m)
  }

  function TakeNext(l: Looper): Looper {
    if l.running && !l.stop && l.current.None? && l.pending != [] && l.now >= l.pending[0].time then
      l.(pending := l.pending[1..], current := Some(l.pending[0]), msgSize := U32(l.msgSize - 1),
         log := l.log + [Dispatch(l.pending[0], l.now)])
    else l
  }

  function FinishCurrent(l: Looper): Looper {
    if l.current.Some? then l.(current := None, freed := l.freed + [Freed(l.current.value, Handled)]) else l
  }

  function RemoveMatching(l: Looper, p: Msg -> bool): Looper {
    if !l.running || l.stop then l
    else
      var gone := Matching(l.pending, p);
      l.(pending := Without(l.pending, p), msgSize := U32(l.msgSize - |gone|), freed := l.freed + Tagged(gone, Removed))
  }

  function DestroyRest(l: Looper): Looper {
    if l.stop && !l.running then l.(pending := [], freed := l.freed + Tagged(l.pending, Destroyed), destroyed := true)
      else l
  }

  /** Steps that touch neither the list nor the messages. */
  function Control(l: Looper, ev: Event): Looper {
    match ev
    case Tick(now) => if now >= l.now then l.(now := now) else l
    case Stop => l.(stop := true)
    case Exit(needDestroy) => if l.current.None? && (l.stop || needDestroy) then l.(running := false) else l
    case _ => l
  }

  function Step(l: Looper, ev: Event): Looper {
    if l.destroyed then l
    else match ev
      case PostAt(time, handler, what) => Post(l, time, handler, what)
      case PostDelay(delay, handler, what) => Post(l, l.now + delay * 1000, handler, what)
      case Take => TakeNext(l)
      case Finish => FinishCurrent(l)
      case Remove(handler, custom) => RemoveMatching(l, ToRemove(handler, custom))
      case Destroy => DestroyRest(l)
      case _ => Control(l, ev)
  }

  function Run(now: int, events: seq<Event>): Looper {
    if events == [] then Begin(now) else Step(Run(now, events[..|events| - 1]), events[|events| - 1])
  }

  // ------------------------------------------------------------------ the pending list is sorted and stable

  /** Earlier due time, and among equal due times earlier post. */
  predicate Before(a: Msg, b: Msg) {
    a.time < b.time || (a.time == b.time && a.order < b.order)
  }

  predicate Sorted(s: seq<Msg>) {
    forall i, j :: 0 <= i < j < |s| ==> Before(s[i], s[j])
  }

  lemma {:induction false} InsertSorted(s: seq<Msg>, m: Msg)
    requires Sorted(s) && forall i :: 0 <= i < |s| ==> s[i].order < m.order
    ensures Sorted(InsertByTime(s, m))
    ensures forall x :: x in InsertByTime(s, m) <==> x in s || x == m
  {
    if s == [] {
    } else if s[0].time > m.time {
    } else {
      InsertSorted(s[1..], m);
      assert s == [s[0]] + s[1..];
      assert forall i :: 0 <= i < |InsertByTime(s[1..], m)| ==>
          InsertByTime(s[1..], m)[i] in s[1..] || InsertByTime(s[1..], m)[i] == m;
      assert forall x :: x in s[1..] ==> Before(s[0], x);
    }
  }

  lemma {:induction false} WithoutMembers(s: seq<Msg>, p: Msg -> bool)
    ensures forall x :: x in Without(s, p) <==> x in s && !p(x)
    ensures forall x :: x in Matching(s, p) <==> x in s && p(x)
  {
    if s != [] {
      WithoutMembers(s[..|s| - 1], p);
      assert s == s[..|s| - 1] + [s[|s| - 1]];
    }
  }

  lemma {:induction false} WithoutSorted(s: seq<Msg>, p: Msg -> bool)
    requires Sorted(s)
    ensures Sorted(Without(s, p))
  {
    if s != [] {
      var n := |s| - 1;
      WithoutSorted(s[..n], p);
      WithoutMembers(s[..n], p);
      assert forall x :: x in s[..n] ==> Before(x, s[n]);
    }
  }

  // ------------------------------------------------------------------ conservation

  /** How often m occurs in s. */
  function Times(s: seq<Msg>, m: Msg): nat {
    if s == [] then 0 else Times(s[..|s| - 1], m) + if s[|s| - 1] == m then 1 else 0
  }

  lemma {:induction false} TimesConcat(a: seq<Msg>, b: seq<Msg>, m: Msg)
    ensures Times(a + b, m) == Times(a, m) + Times(b, m)
    decreases b
  {
    if b == [] {
      assert a + b == a;
    } else {
      assert (a + b)[..|a + b| - 1] == a + b[..|b| - 1];
      TimesConcat(a, b[..|b| - 1], m);
    }
  }

  lemma TimesOne(x: Msg, m: Msg)
    ensures Times([x], m) == if x == m then 1 else 0
  {
    assert [x][..0] == [];
  }

  lemma {:induction false} TimesMember(s: seq<Msg>, m: Msg)
    ensures Times(s, m) > 0 <==> m in s
  {
    if s != [] {
      TimesMember(s[..|s| - 1], m);
      assert s == s[..|s| - 1] + [s[|s| - 1]];
    }
  }

  lemma {:induction false} WithoutConserves(s: seq<Msg>, p: Msg -> bool, m: Msg)
    ensures Times(s, m) == Times(Without(s, p), m) + Times(Matching(s, p), m)
    ensures |s| == |Without(s, p)| + |Matching(s, p)|
  {
    if s != [] {
      var n := |s| - 1;
      WithoutConserves(s[..n], p, m);
      TimesOne(s[n], m);
      TimesConcat(Without(s[..n], p), [s[n]], m);
      TimesConcat(Matching(s[..n], p), [s[n]], m);
      assert Without(s[..n], p) + [] == Without(s[..n], p) && Matching(s[..n], p) + [] == Matching(s[..n], p);
    }
  }

  lemma {:induction false} InsertConserves(s: seq<Msg>, x: Msg, m: Msg)
    ensures Times(InsertByTime(s, x), m) == Times(s, m) + Times([x], m)
    ensures |InsertByTime(s, x)| == |s| + 1
  {
    if s == [] {
    } else if s[0].time > x.time {
      TimesConcat([x], s, m);
    } else {
      InsertConserves(s[1..], x, m);
      assert s == [s[0]] + s[1..];
      TimesConcat([s[0]], s[1..], m);
      TimesConcat([s[0]], InsertByTime(s[1..], x), m);
    }
  }

  function MsgsOf(freed: seq<Freed>): (r: seq<Msg>)
    ensures |r| == |freed| && forall i :: 0 <= i < |r| ==> r[i] == freed[i].msg
  {
    seq(|freed|, i requires 0 <= i < |freed| => freed[i].msg)
  }

  function TimesFreed(freed: seq<Freed>, m: Msg): nat {
    Times(MsgsOf(freed), m)
  }

  lemma FreedMore(freed: seq<Freed>, s: seq<Msg>, fate: Fate, m: Msg)
    ensures TimesFreed(freed + Tagged(s, fate), m) == TimesFreed(freed, m) + Times(s, m)
  {
    assert MsgsOf(freed + Tagged(s, fate)) == MsgsOf(freed) + s;
    TimesConcat(MsgsOf(freed), s, m);
  }

  lemma FreedOne(freed: seq<Freed>, x: Msg, fate: Fate, m: Msg)
    ensures TimesFreed(freed + [Freed(x, fate)], m) == TimesFreed(freed, m) + Times([x], m)
  {
    assert Tagged([x], fate) == [Freed(x, fate)];
    FreedMore(freed, [x], fate, m);
  }

  function BeingHandled(l: Looper, m: Msg): nat {
    if l.current == Some(m) then 1 else 0
  }

  /** Every posted message is freed, pending or being handled, as often as it was posted. */
  ghost predicate Balanced(l: Looper, m: Msg) {
    TimesFreed(l.freed, m) + Times(l.pending, m) + BeingHandled(l, m) == Times(l.posted, m)
  }

  lemma PostBalanced(l: Looper, time: int, handler: nat, what: int, l': Looper, m: Msg)
    requires Balanced(l, m) && l' == Post(l, time, handler, what)
    ensures Balanced(l', m)
  {
    var x := Msg(|l.posted|, time, handler, what);
    TimesConcat(l.posted, [x], m);
    if handler == 0 || l.stop {
      FreedOne(l.freed, x, Rejected, m);
    } else {
      InsertConserves(l.pending, x, m);
    }
  }

  lemma TakeBalanced(l: Looper, l': Looper, m: Msg)
    requires Balanced(l, m) && l' == TakeNext(l)
    ensures Balanced(l', m)
  {
    if l.pending != [] {
      assert l.pending == [l.pending[0]] + l.pending[1..];
      TimesConcat([l.pending[0]], l.pending[1..], m);
      TimesOne(l.pending[0], m);
    }
  }

  lemma FinishBalanced(l: Looper, l': Looper, m: Msg)
    requires Balanced(l, m) && l' == FinishCurrent(l)
    ensures Balanced(l', m)
  {
    if l.current.Some? {
      FreedOne(l.freed, l.current.value, Handled, m);
      TimesOne(l.current.value, m);
    }
  }

  lemma RemoveBalanced(l: Looper, p: Msg -> bool, l': Looper, m: Msg)
    requires Balanced(l, m) && l' == RemoveMatching(l, p)
    ensures Balanced(l', m)
  {
    WithoutConserves(l.pending, p, m);
    FreedMore(l.freed, Matching(l.pending, p), Removed, m);
  }

  lemma DestroyBalanced(l: Looper, l': Looper, m: Msg)
    requires Balanced(l, m) && l' == DestroyRest(l)
    ensures Balanced(l', m)
  {
    FreedMore(l.freed, l.pending, Destroyed, m);
  }

  lemma StepBalanced(l: Looper, ev: Event, l': Looper, m: Msg)
    requires Balanced(l, m) && l' == Step(l, ev)
    ensures Balanced(l', m)
  {
    if !l.destroyed {
      match ev
      case PostAt(time, handler, what) => PostBalanced(l, time, handler, what, l', m);
      case PostDelay(delay, handler, what) => PostBalanced(l, l.now + delay * 1000, handler, what, l', m);
      case Take => TakeBalanced(l, l', m);
      case Finish => FinishBalanced(l, l', m);
      case Remove(handler, custom) => RemoveBalanced(l, ToRemove(handler, custom), l', m);
      case Destroy => DestroyBalanced(l, l', m);
      case _ =>
    }
  }

  // ------------------------------------------------------------------ shape of every reachable state

  ghost predicate Shape(l: Looper) {
    && (forall i :: 0 <= i < |l.posted| ==> l.posted[i].order == i)
    && Sorted(l.pending) && (forall x :: x in l.pending ==> x.order < |l.posted|)
    && (!l.destroyed ==> l.msgSize == U32(|l.pending|))
    && (!l.running ==> l.current.None?)
    && (l.destroyed ==> l.pending == [] && l.current.None?)
    && (forall i :: 0 <= i < |l.log| ==> l.log[i].msg.time <= l.log[i].at <= l.now && l.log[i].msg.order < |l.posted|)
  }

  lemma InsertSize(s: seq<Msg>, m: Msg)
    ensures U32(U32(|s|) + 1) == U32(|InsertByTime(s, m)|)
  {
    InsertConserves(s, m, m);
    WordStep(|s|, 1);
  }

  lemma InsertShape(s: seq<Msg>, m: Msg)
    requires Sorted(s) && forall x :: x in s ==> x.order < m.order
    ensures Sorted(InsertByTime(s, m)) && (forall x :: x in InsertByTime(s, m) ==> x.order <= m.order)
  {
    assert forall i :: 0 <= i < |s| ==> s[i] in s;
    InsertSorted(s, m);
  }

  lemma PostShape(l: Looper, time: int, handler: nat, what: int, l': Looper)
    requires Shape(l) && !l.destroyed && l' == Post(l, time, handler, what)
    ensures Shape(l')
  {
    var m := Msg(|l.posted|, time, handler, what);
    InsertShape(l.pending, m);
    InsertSize(l.pending, m);
    assert forall i :: 0 <= i < |l'.posted| ==> l'.posted[i].order == i;
    if handler == 0 || l.stop {
      assert l'.pending == l.pending && l'.msgSize == l.msgSize;
    } else {
      assert l'.pending == InsertByTime(l.pending, m) && l'.msgSize == U32(l.msgSize + 1);
    }
  }

  lemma RemoveSize(s: seq<Msg>, p: Msg -> bool)
    ensures U32(U32(|s|) - |Matching(s, p)|) == U32(|Without(s, p)|)
  {
    WithoutConserves(s, p, Msg(0, 0, 0, 0));
    WordStep(|s|, -|Matching(s, p)|);
  }

  lemma RemoveShape(l: Looper, p: Msg -> bool, l': Looper)
    requires Shape(l) && !l.destroyed && l' == RemoveMatching(l, p)
    ensures Shape(l')
  {
    WithoutSorted(l.pending, p);
    WithoutMembers(l.pending, p);
    RemoveSize(l.pending, p);
  }

  lemma TakeShape(l: Looper, l': Looper)
    requires Shape(l) && !l.destroyed && l' == TakeNext(l)
    ensures Shape(l')
  {
    if l.pending != [] { WordStep(|l.pending|, -1); }
  }

  /** Steps that change no list and no log beyond what `Shape` speaks of. */
  lemma ShapeFrame(l: Looper, l': Looper)
    requires Shape(l) && l'.posted == l.posted && l'.log == l.log && l'.now >= l.now
    requires (l'.pending == l.pending && l'.msgSize == l.msgSize && l'.destroyed == l.destroyed) ||
        (l'.pending == [] && l'.destroyed)
    requires (!l'.running || l'.destroyed) ==> l'.current.None?
    ensures Shape(l')
  {
  }

  lemma StepShape(l: Looper, ev: Event, l': Looper)
    requires Shape(l) && l' == Step(l, ev)
    ensures Shape(l')
  {
    if !l.destroyed {
      match ev
      case PostAt(time, handler, what) => PostShape(l, time, handler, what, l');
      case PostDelay(delay, handler, what) => PostShape(l, l.now + delay * 1000, handler, what, l');
      case Take => TakeShape(l, l');
      case Remove(handler, custom) => RemoveShape(l, ToRemove(handler, custom), l');
      case _ => ShapeFrame(l, l');
    }
  }

  // ------------------------------------------------------------------ order of dispatch

  predicate LogSorted(log: seq<Dispatch>) {
    forall i, j :: 0 <= i < j < |log| ==> Before(log[i].msg, log[j].msg)
  }

  /** A pending message that is not late comes after everything dispatched so far. */
  ghost predicate OnTimeLast(l: Looper) {
    forall x, i :: x in l.pending && 0 <= i < |l.log| && x.order !in l.late ==> Before(l.log[i].msg, x)
  }

  /** A pending late message comes too late. */
  ghost predicate LateTooLate(l: Looper) {
    forall x :: x in l.pending && x.order in l.late ==> IsLate(l.log, x.time)
  }

  predicate NoneLate(log: seq<Dispatch>, late: set<nat>) {
    forall i :: 0 <= i < |log| ==> log[i].msg.order !in late
  }

  ghost predicate OrderKnown(l: Looper) {
    && (forall n :: n in l.late ==> n < |l.posted|)
    && OnTimeLast(l) && LateTooLate(l) && (LogSorted(l.log) <==> NoneLate(l.log, l.late))
  }

  /** Steps that neither dispatch nor insert. */
  lemma OrderFrame(l: Looper, l': Looper)
    requires OrderKnown(l) && l'.log == l.log && l'.late == l.late && l'.posted == l.posted
    requires forall x :: x in l'.pending ==> x in l.pending
    ensures OrderKnown(l')
  {
  }

  lemma PostOrder(l: Looper, time: int, handler: nat, what: int, l': Looper)
    requires Shape(l) && OrderKnown(l) && l' == Post(l, time, handler, what)
    ensures OrderKnown(l')
  {
    var m := Msg(|l.posted|, time, handler, what);
    InsertSorted(l.pending, m);
    assert l'.log == l.log && l'.late <= l.late + {m.order} && l.late <= l'.late;
    assert forall x :: x in l'.pending ==>
             x in l.pending || (x == m && l'.late == if IsLate(l.log, time) then l.late + {m.order} else l.late);
    assert NoneLate(l'.log, l'.late) <==> NoneLate(l.log, l.late);
  }

  lemma TakeOrder(l: Looper, l': Looper)
    requires Shape(l) && OrderKnown(l) && l' == TakeNext(l)
    ensures OrderKnown(l')
  {
    if l' != l {
      var h, n := l.pending[0], |l.log|;
      assert forall i :: 0 <= i < n ==> l'.log[i] == l.log[i];
      assert l'.log[n].msg == h && h in l.pending;
      assert forall x :: x in l'.pending ==> x in l.pending && Before(h, x);
      LateKept(l.log, Dispatch(h, l.now));
      if h.order in l.late {
        var i :| 0 <= i < n && l.log[i].msg.time > h.time;
        assert !Before(l'.log[i].msg, l'.log[n].msg);
      } else {
        assert LogSorted(l'.log) <==> LogSorted(l.log);
      }
    }
  }

  lemma LateKept(log: seq<Dispatch>, d: Dispatch)
    ensures forall t :: IsLate(log, t) ==> IsLate(log + [d], t)
  {
    forall t | IsLate(log, t) ensures IsLate(log + [d], t) {
      var i :| 0 <= i < |log| && log[i].msg.time > t;
      assert (log + [d])[i].msg.time > t;
    }
  }

  lemma RemoveOrder(l: Looper, p: Msg -> bool, l': Looper)
    requires OrderKnown(l) && l' == RemoveMatching(l, p)
    ensures OrderKnown(l')
  {
    WithoutMembers(l.pending, p);
    OrderFrame(l, l');
  }

  lemma StepOrder(l: Looper, ev: Event, l': Looper)
    requires Shape(l) && OrderKnown(l) && l' == Step(l, ev)
    ensures OrderKnown(l')
  {
    if l.destroyed {
      OrderFrame(l, l');
    } else {
      match ev
      case PostAt(time, handler, what) => PostOrder(l, time, handler, what, l');
      case PostDelay(delay, handler, what) => PostOrder(l, l.now + delay * 1000, handler, what, l');
      case Take => TakeOrder(l, l');
      case Remove(handler, custom) => RemoveOrder(l, ToRemove(handler, custom), l');
      case Finish => OrderFrame(l, l');
      case Destroy => OrderFrame(l, l');
      case _ => OrderFrame(l, l');
    }
  }

  // ------------------------------------------------------------------ fates

  predicate Dispatched(l: Looper, m: Msg) {
    exists i :: 0 <= i < |l.log| && l.log[i].msg == m
  }

  /** What was dispatched is being handled or was freed after handling, and nothing else was dispatched. */
  ghost predicate FatesAgree(l: Looper) {
    && (forall i :: 0 <= i < |l.log| ==> l.current == Some(l.log[i].msg) || Freed(l.log[i].msg, Handled) in l.freed)
    && (forall m, fate :: Freed(m, fate) in l.freed && fate != Handled ==> !Dispatched(l, m))
    && (forall m :: m in l.pending ==> !Dispatched(l, m))
  }

  lemma {:induction false} PostedOnce(s: seq<Msg>, m: Msg)
    requires forall i :: 0 <= i < |s| ==> s[i].order == i
    ensures Times(s, m) <= 1
  {
    if s != [] {
      var n := |s| - 1;
      PostedOnce(s[..n], m);
      TimesMember(s[..n], m);
    }
  }

  lemma FreedCounts(freed: seq<Freed>, m: Msg, fate: Fate)
    ensures Freed(m, fate) in freed ==> TimesFreed(freed, m) > 0
  {
    TimesMember(MsgsOf(freed), m);
    forall i | 0 <= i < |freed| && freed[i] == Freed(m, fate) ensures m in MsgsOf(freed) {
      assert MsgsOf(freed)[i] == m;
    }
  }

  /** A pending message has not been freed. */
  lemma PendingNotFreed(l: Looper, m: Msg)
    requires Shape(l) && Balanced(l, m) && m in l.pending
    ensures forall fate :: Freed(m, fate) !in l.freed
  {
    PostedOnce(l.posted, m);
    TimesMember(l.pending, m);
    forall fate ensures Freed(m, fate) !in l.freed {
      FreedCounts(l.freed, m, fate);
    }
  }

  lemma TakeFates(l: Looper, l': Looper)
    requires Shape(l) && FatesAgree(l) && (l.pending != [] ==> Balanced(l, l.pending[0])) && l' == TakeNext(l)
    ensures FatesAgree(l')
  {
    if l' != l {
      var h := l.pending[0];
      PendingNotFreed(l, h);
      assert forall m :: Dispatched(l', m) ==> Dispatched(l, m) || m == h by {
        forall m | Dispatched(l', m) ensures Dispatched(l, m) || m == h {
          var i :| 0 <= i < |l'.log| && l'.log[i].msg == m;
          if i < |l.log| { assert l.log[i].msg == m; }
        }
      }
      assert forall m :: m in l'.pending ==> m in l.pending && Before(h, m);
    }
  }

  /** Steps that dispatch nothing and free only what was pending or new. */
  lemma FatesFrame(l: Looper, l': Looper, more: seq<Freed>)
    requires FatesAgree(l) && l'.log == l.log && l'.current == l.current && l'.freed == l.freed + more
    requires forall x :: x in l'.pending ==> !Dispatched(l, x)
    requires forall m, fate :: Freed(m, fate) in more ==> fate != Handled && !Dispatched(l, m)
    ensures FatesAgree(l')
  {
    assert forall m :: Dispatched(l', m) <==> Dispatched(l, m);
  }

  lemma FinishFates(l: Looper, l': Looper)
    requires FatesAgree(l) && l' == FinishCurrent(l)
    ensures FatesAgree(l')
  {
    assert forall m :: Dispatched(l', m) <==> Dispatched(l, m);
  }

  lemma RemoveFates(l: Looper, p: Msg -> bool, l': Looper)
    requires FatesAgree(l) && l' == RemoveMatching(l, p)
    ensures FatesAgree(l')
  {
    if l.running && !l.stop {
      WithoutMembers(l.pending, p);
      TaggedMembers(Matching(l.pending, p), Removed);
      FatesFrame(l, l', Tagged(Matching(l.pending, p), Removed));
    }
  }

  lemma DestroyFates(l: Looper, l': Looper)
    requires FatesAgree(l) && l' == DestroyRest(l)
    ensures FatesAgree(l')
  {
    if l.stop && !l.running {
      TaggedMembers(l.pending, Destroyed);
      FatesFrame(l, l', Tagged(l.pending, Destroyed));
    }
  }

  lemma StepFates(l: Looper, ev: Event, l': Looper)
    requires Shape(l) && FatesAgree(l) && (l.pending != [] ==> Balanced(l, l.pending[0])) && l' == Step(l, ev)
    ensures FatesAgree(l')
  {
    if !l.destroyed {
      match ev
      case PostAt(time, handler, what) => PostFates(l, time, handler, what, l');
      case PostDelay(delay, handler, what) => PostFates(l, l.now + delay * 1000, handler, what, l');
      case Take => TakeFates(l, l');
      case Finish => FinishFates(l, l');
      case Remove(handler, custom) => RemoveFates(l, ToRemove(handler, custom), l');
      case Destroy => DestroyFates(l, l');
      case _ => FatesFrame(l, l', []);
    }
  }

  lemma TaggedMembers(s: seq<Msg>, fate: Fate)
    ensures forall m, f :: Freed(m, f) in Tagged(s, fate) ==> f == fate && m in s
  {
  }

  lemma PostFates(l: Looper, time: int, handler: nat, what: int, l': Looper)
    requires Shape(l) && FatesAgree(l) && l' == Post(l, time, handler, what)
    ensures FatesAgree(l')
  {
    var m := Msg(|l.posted|, time, handler, what);
    InsertSorted(l.pending, m);
    assert !Dispatched(l, m);
    FatesFrame(l, l', if handler == 0 || l.stop then [Freed(m, Rejected)] else []);
  }

  // ------------------------------------------------------------------ what every run guarantees

  ghost predicate Inv(l: Looper) {
    Shape(l) && OrderKnown(l) && FatesAgree(l) && forall m :: Balanced(l, m)
  }

  lemma StepKeeps(l: Looper, ev: Event, l': Looper)
    requires Inv(l) && l' == Step(l, ev)
    ensures Inv(l')
  {
    StepShape(l, ev, l');
    StepOrder(l, ev, l');
    StepFates(l, ev, l');
    forall m ensures Balanced(l', m) {
      StepBalanced(l, ev, l', m);
    }
  }

  lemma {:induction false} RunKeeps(now: int, events: seq<Event>)
    ensures Inv(Run(now, events))
  {
    if events != [] {
      var n := |events| - 1;
      var l := Run(now, events[..n]);
      RunKeeps(now, events[..n]);
      StepKeeps(l, events[n], Run(now, events));
    }
  }

  /** In every run the pending list is sorted by due time, equal due times keep the order of posting,
      the size field is its length until destruction, and nothing is dispatched before it is due. */
  lemma PendingStaysSorted(now: int, events: seq<Event>)
    ensures var l := Run(now, events);
            && Sorted(l.pending)
            && (!l.destroyed ==> l.msgSize == |l.pending| % TWO32)
            && forall i :: 0 <= i < |l.log| ==> l.log[i].at >= l.log[i].msg.time
  {
    RunKeeps(now, events);
  }

  /** The dispatches come in order of due time and post order exactly when no dispatched message had
      been inserted after the dispatch of one that was due later. */
  lemma DispatchOrderExactly(now: int, events: seq<Event>)
    ensures var l := Run(now, events);
            LogSorted(l.log) <==> NoneLate(l.log, l.late)
  {
    RunKeeps(now, events);
  }

  // ------------------------------------------------------------------ what each step does

  /** A message without handler or after the stop is freed as rejected; any other is pending, in its
      place by due time and post order. */
  ghost predicate PostExact(l: Looper, time: int, handler: nat, what: int, l': Looper) {
    var m := Msg(|l.posted|, time, handler, what);
    && l'.posted == l.posted + [m] && Sorted(l'.pending)
    && l' == l.(posted := l'.posted, pending := l'.pending, msgSize := l'.msgSize, freed := l'.freed, late := l'.late)
    && (handler == 0 || l.stop ==> l'.freed == l.freed + [Freed(m, Rejected)] && l'.pending == l.pending)
    && (handler != 0 && !l.stop ==> l'.freed == l.freed && forall x :: x in l'.pending <==> x in l.pending || x == m)
  }

  /** The loop thread is free and some pending message is due. */
  ghost predicate SomeDue(l: Looper) {
    l.running && !l.stop && l.current.None? && exists x :: x in l.pending && x.time <= l.now
  }

  /** Then the first message by due time and post order is dispatched; otherwise nothing happens. */
  ghost predicate TakeExact(l: Looper, l': Looper) {
    if !SomeDue(l) then l' == l
    else
      && l'.current.Some? && Sorted(l'.pending)
      && l' == l.(pending := l'.pending, current := l'.current, msgSize := l'.msgSize, log := l'.log)
      && var m := l'.current.value;
         && m in l.pending && m.time <= l.now && (forall x :: x in l.pending && x != m ==> Before(m, x))
         && (forall x :: x in l'.pending <==> x in l.pending && x != m) && l'.log == l.log + [Dispatch(m, l.now)]
  }

  /** While the loop runs and is not stopped, exactly the pending messages of that handler that the
      caller's test accepts are freed, in their order, and the others stay pending in theirs. */
  ghost predicate RemoveExact(l: Looper, handler: nat, custom: Msg -> bool, l': Looper) {
    if !l.running || l.stop then l' == l
    else
      && l.freed <= l'.freed && Sorted(l'.pending)
      && l' == l.(pending := l'.pending, freed := l'.freed, msgSize := l'.msgSize)
      && (forall x :: x in l'.pending <==> x in l.pending && !(x.handler == handler && custom(x)))
      && var gone := l'.freed[|l.freed|..];
         && (forall x :: x in MsgsOf(gone) <==> x in l.pending && x.handler == handler && custom(x))
         && Sorted(MsgsOf(gone)) && (forall i :: 0 <= i < |gone| ==> gone[i].fate == Removed)
  }

  /** What is left is freed in order, once the thread of a stopped looper has ended. */
  ghost predicate DestroyExact(l: Looper, l': Looper) {
    if !l.stop || l.running then l' == l
    else
      && l.freed <= l'.freed && l' == l.(pending := [], destroyed := true, freed := l'.freed)
      && var gone := l'.freed[|l.freed|..];
         MsgsOf(gone) == l.pending && forall i :: 0 <= i < |gone| ==> gone[i].fate == Destroyed
  }

  ghost predicate StepExact(l: Looper, ev: Event, l': Looper) {
    match ev
    case PostAt(time, handler, what) => PostExact(l, time, handler, what, l')
    case PostDelay(delay, handler, what) => PostExact(l, l.now + 1000 * delay, handler, what, l')
    case Take => TakeExact(l, l')
    case Finish =>
      && (l.current.None? ==> l' == l)
      && (l.current.Some? ==> l' == l.(current := None, freed := l.freed + [Freed(l.current.value, Handled)]))
    case Remove(handler, custom) => RemoveExact(l, handler, custom, l')
    case Destroy => DestroyExact(l, l')
    case Tick(now) => l'.now >= now && l'.now >= l.now && (l'.now == now || l'.now == l.now) && l' == l.(now := l'.now)
    case Stop => l'.stop && l' == l.(stop := true)
    case Exit(needDestroy) =>
      && (l.running && !l'.running <==> l.running && l.current.None? && (l.stop || needDestroy))
      && l' == l.(running := l'.running) && (l'.running ==> l.running)
  }

  lemma PostIsExact(l: Looper, time: int, handler: nat, what: int, l': Looper)
    requires Shape(l) && !l.destroyed && l' == Post(l, time, handler, what)
    ensures PostExact(l, time, handler, what, l')
  {
    var m := Msg(|l.posted|, time, handler, what);
    PostShape(l, time, handler, what, l');
    InsertSorted(l.pending, m);
  }

  lemma TakeIsExact(l: Looper, l': Looper)
    requires Shape(l) && !l.destroyed && l' == TakeNext(l)
    ensures TakeExact(l, l')
  {
    TakeShape(l, l');
    if l.pending != [] {
      var h := l.pending[0];
      assert l.pending == [h] + l.pending[1..];
      assert forall x :: x in l.pending[1..] ==> Before(h, x);
    }
  }

  lemma MatchingSorted(s: seq<Msg>, p: Msg -> bool)
    requires Sorted(s)
    ensures Sorted(Matching(s, p))
  {
    if s != [] {
      var n := |s| - 1;
      MatchingSorted(s[..n], p);
      WithoutMembers(s[..n], p);
      assert forall x :: x in s[..n] ==> Before(x, s[n]);
    }
  }

  lemma RemoveIsExact(l: Looper, handler: nat, custom: Msg -> bool, l': Looper)
    requires Shape(l) && !l.destroyed && l' == RemoveMatching(l, ToRemove(handler, custom))
    ensures RemoveExact(l, handler, custom, l')
  {
    var p := ToRemove(handler, custom);
    RemoveShape(l, p, l');
    WithoutMembers(l.pending, p);
    MatchingSorted(l.pending, p);
    if l.running && !l.stop {
      var gone := Tagged(Matching(l.pending, p), Removed);
      assert l'.freed[|l.freed|..] == gone && MsgsOf(gone) == Matching(l.pending, p);
    }
  }

  lemma DestroyIsExact(l: Looper, l': Looper)
    requires l' == DestroyRest(l)
    ensures DestroyExact(l, l')
  {
    if l.stop && !l.running {
      var gone := Tagged(l.pending, Destroyed);
      assert l'.freed[|l.freed|..] == gone && MsgsOf(gone) == l.pending;
    }
  }

  lemma StepIsExact(l: Looper, ev: Event, l': Looper)
    requires Shape(l) && !l.destroyed && l' == Step(l, ev)
    ensures StepExact(l, ev, l')
  {
    match ev
    case PostAt(time, handler, what) => PostIsExact(l, time, handler, what, l');
    case PostDelay(delay, handler, what) => PostIsExact(l, l.now + 1000 * delay, handler, what, l');
    case Take => TakeIsExact(l, l');
    case Remove(handler, custom) => RemoveIsExact(l, handler, custom, l');
    case Destroy => DestroyIsExact(l, l');
    case _ =>
  }

  /** In every run every step does exactly this, until the looper is destroyed; after that nothing
      changes any more. */
  lemma StepsAreExact(now: int, events: seq<Event>, ev: Event)
    ensures var l, l' := Run(now, events), Run(now, events + [ev]);
            if l.destroyed then l' == l else StepExact(l, ev, l')
  {
    RunKeeps(now, events);
    Snoc(now, events, ev);
    var l := Run(now, events);
    if !l.destroyed { StepIsExact(l, ev, Step(l, ev)); }
  }

  lemma StoppedStep(l: Looper, ev: Event, l': Looper)
    requires l.stop && l' == Step(l, ev)
    ensures l'.stop && l'.log == l.log
  {
  }

  /** Nothing is dispatched once the looper was told to stop. */
  lemma {:induction false} NoDispatchAfterStop(now: int, events: seq<Event>, later: seq<Event>)
    requires Run(now, events).stop
    ensures Run(now, events + later).stop && Run(now, events + later).log == Run(now, events).log
    decreases later
  {
    if later == [] {
      assert events + later == events;
    } else {
      var n := |later| - 1;
      NoDispatchAfterStop(now, events, later[..n]);
      assert events + later[..n] + [later[n]] == events + later;
      Snoc(now, events + later[..n], later[n]);
      StoppedStep(Run(now, events + later[..n]), later[n], Run(now, events + later));
    }
  }

  lemma StepKeepsHandlers(l: Looper, ev: Event, l': Looper)
    requires l' == Step(l, ev) && (forall x :: x in l.pending ==> x.handler != 0)
    requires Shape(l) && forall d :: d in l.log ==> d.msg.handler != 0
    ensures (forall x :: x in l'.pending ==> x.handler != 0) && forall d :: d in l'.log ==> d.msg.handler != 0
  {
    if !l.destroyed {
      match ev
      case PostAt(time, handler, what) => InsertSorted(l.pending, Msg(|l.posted|, time, handler, what));
      case PostDelay(delay, handler, what) =>
        InsertSorted(l.pending, Msg(|l.posted|, l.now + delay * 1000, handler, what));
      case Remove(handler, custom) => WithoutMembers(l.pending, ToRemove(handler, custom));
      case _ =>
    }
  }

  /** A message without handler is never pending and never dispatched. */
  lemma {:induction false} OnlyHandledDispatched(now: int, events: seq<Event>)
    ensures var l := Run(now, events);
            (forall x :: x in l.pending ==> x.handler != 0) && forall d :: d in l.log ==> d.msg.handler != 0
  {
    if events != [] {
      var n := |events| - 1;
      OnlyHandledDispatched(now, events[..n]);
      RunKeeps(now, events[..n]);
      StepKeepsHandlers(Run(now, events[..n]), events[n], Run(now, events));
    }
  }

  /** A stamp not older than the clock is not late: whatever was dispatched was due by now. */
  lemma StepNotLate(l: Looper, ev: Event)
    requires Shape(l) && l.late == {} && !ev.PostAt?
    ensures Step(l, ev).late == {}
  {
    if ev.PostDelay? {
      assert !IsLate(l.log, l.now + ev.delay * 1000);
    }
  }

  /** With the stamp and the insertion in one step nothing is late, so dispatches come in order. */
  lemma {:induction false} AtomicPostsDispatchInOrder(now: int, events: seq<Event>)
    requires forall i :: 0 <= i < |events| ==> !events[i].PostAt?
    ensures Run(now, events).late == {} && LogSorted(Run(now, events).log)
  {
    RunKeeps(now, events);
    if events != [] {
      var n := |events| - 1;
      AtomicPostsDispatchInOrder(now, events[..n]);
      RunKeeps(now, events[..n]);
      StepNotLate(Run(now, events[..n]), events[n]);
    }
  }

  lemma Snoc(now: int, events: seq<Event>, ev: Event)
    ensures Run(now, events + [ev]) == Step(Run(now, events), ev)
  {
    assert (events + [ev])[..|events|] == events;
  }

  /** A clock at 20, a message stamped 20 that was dispatched and freed. */
  lemma OneDispatched(events: seq<Event>, a: Msg)
    requires events == [Tick(20), PostAt(20, 1, 0), Take, Finish] && a == Msg(0, 20, 1, 0)
    ensures var l := Run(0, events);
            && l.pending == [] && l.current.None? && !l.stop && l.running && !l.destroyed && l.now == 20
            && |l.posted| == 1 && l.log == [Dispatch(a, 20)]
  {
    Snoc(0, [], Tick(20));
    assert [] + [Tick(20)] == events[..1];
    Snoc(0, events[..1], PostAt(20, 1, 0));
    assert events[..1] + [PostAt(20, 1, 0)] == events[..2];
    assert Run(0, events[..2]).pending == [a];
    Snoc(0, events[..2], Take);
    assert events[..2] + [Take] == events[..3];
    Snoc(0, events[..3], Finish);
    assert events[..3] + [Finish] == events;
  }

  /** With the stamp taken first, a message can be inserted after a later one was dispatched. */
  lemma EarlyStampBreaksOrder()
    ensures var events := [Tick(20), PostAt(20, 1, 0), Take, Finish, PostAt(10, 1, 0), Take];
            !LogSorted(Run(0, events).log)
  {
    var first := [Tick(20), PostAt(20, 1, 0), Take, Finish];
    var a, b := Msg(0, 20, 1, 0), Msg(1, 10, 1, 0);
    OneDispatched(first, a);
    Snoc(0, first, PostAt(10, 1, 0));
    var l := Run(0, first + [PostAt(10, 1, 0)]);
    assert l.pending == [b];
    Snoc(0, first + [PostAt(10, 1, 0)], Take);
    assert first + [PostAt(10, 1, 0)] + [Take] == [Tick(20), PostAt(20, 1, 0), Take, Finish, PostAt(10, 1, 0), Take];
    var log := Step(l, Take).log;
    assert log[0].msg == a && log[1].msg == b && !Before(a, b);
  }

  /** No message is freed twice, and once the looper is destroyed every posted message is freed
      exactly once: rejected, removed, handled or destroyed. */
  lemma FreedExactlyOnce(now: int, events: seq<Event>, i: nat)
    requires i < |Run(now, events).posted|
    ensures var l := Run(now, events);
            TimesFreed(l.freed, l.posted[i]) <= 1 && (l.destroyed ==> TimesFreed(l.freed, l.posted[i]) == 1)
  {
    RunKeeps(now, events);
    var l := Run(now, events);
    assert Balanced(l, l.posted[i]);
    PostedOnce(l.posted, l.posted[i]);
    TimesMember(l.posted, l.posted[i]);
  }

  /** A removed, rejected or destroyed message is never dispatched, and a dispatched one is freed as handled. */
  lemma RemovedNeverHandled(now: int, events: seq<Event>, m: Msg, fate: Fate)
    requires Freed(m, fate) in Run(now, events).freed
    ensures fate != Handled ==> !Dispatched(Run(now, events), m)
    ensures Run(now, events).destroyed && Dispatched(Run(now, events), m) ==> fate == Handled
  {
    RunKeeps(now, events);
  }
}
