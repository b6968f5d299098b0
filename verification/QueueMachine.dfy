/** The thread-safe operations of the lock-free ring queue, as an interleaving machine.

    Every shared read, compare-and-swap and write of `QueueMultiProducerEnqueue` and
    `QueueMultiConsumerDequeue` is one step of one thread, and a schedule names the thread
    that moves next, so the schedules are exactly the interleavings of any number of
    threads. The machine sees 32-bit counters only; `Aux` counts without wrap-around
    beside it and never influences a step. */
module QueueMachine {
  import opened Bits

  type Tid = nat
  /** A queued pointer; 0 is the null pointer. */
  type Node = nat

  datatype Ring = Ring(mask: nat, pHead: nat, pTail: nat, cHead: nat, cTail: nat, nodes: seq<Node>)

  /** Where a thread stands in an operation, with its local variables. */
  datatype Pc =
    | Idle
    | EnqStart(v: Node)
    | EnqTail(v: Node, head: nat)
    | EnqCas(v: Node, head: nat)
    | EnqWrite(v: Node, head: nat)
    | EnqWait(v: Node, head: nat)
    | EnqLoad(v: Node, head: nat)
    | EnqStore(v: Node, head: nat, tail: nat)
    | DeqStart
    | DeqTail(head: nat)
    | DeqCas(head: nat)
    | DeqRead(head: nat)
    | DeqWait(v: Node, head: nat)
    | DeqLoad(v: Node, head: nat)
    | DeqStore(v: Node, head: nat, tail: nat)

  datatype Call = Enqueue(v: Node) | Dequeue

  /** What an operation returns to its caller. */
  datatype Event = Internal | EnqInvalid | EnqDone(v: Node) | EnqFull | DeqDone(v: Node) | DeqEmpty

  datatype Effect = Effect(ring: Ring, pc: Pc, event: Event)

  /** One step of one thread. `call` is what an idle thread starts next. */
  function Next(r: Ring, pc: Pc, call: Call): (e: Effect)
    requires |r.nodes| > 0 && r.mask == |r.nodes| - 1
    ensures e.ring.mask == r.mask && |e.ring.nodes| == |r.nodes|
  {
    match pc
    case Idle =>
      (match call
       case Enqueue(v) => if v == 0 then Effect(r, Idle, EnqInvalid) else Effect(r, EnqStart(v), Internal)
       case Dequeue => Effect(r, DeqStart, Internal))
    case EnqStart(v) => Effect(r, EnqTail(v, r.pHead), Internal)
    case EnqTail(v, head) =>
      if U32(r.mask + r.cTail - head) < 1 then Effect(r, Idle, EnqFull) else Effect(r, EnqCas(v, head), Internal)
    case EnqCas(v, head) =>
      if r.pHead == head then Effect(r.(pHead := U32(head + 1)), EnqWrite(v, head), Internal)
      else Effect(r, EnqStart(v), Internal)
    case EnqWrite(v, head) =>
      AndBound(head, r.mask);
      Effect(r.(nodes := r.nodes[And(head, r.mask) := v]), EnqWait(v, head), Internal)
    case EnqWait(v, head) =>
      if r.pTail != head then Effect(r, pc, Internal) else Effect(r, EnqLoad(v, head), Internal)
    case EnqLoad(v, head) => Effect(r, EnqStore(v, head, r.pTail), Internal)
    case EnqStore(v, head, tail) => Effect(r.(pTail := U32(tail + 1)), Idle, EnqDone(v))
    case DeqStart => Effect(r, DeqTail(r.cHead), Internal)
    case DeqTail(head) =>
      if U32(r.pTail - head) < 1 then Effect(r, Idle, DeqEmpty) else Effect(r, DeqCas(head), Internal)
    case DeqCas(head) =>
      if r.cHead == head then Effect(r.(cHead := U32(head + 1)), DeqRead(head), Internal)
      else Effect(r, DeqStart, Internal)
    case DeqRead(head) =>
      AndBound(head, r.mask);
      Effect(r, DeqWait(r.nodes[And(head, r.mask)], head), Internal)
    case DeqWait(v, head) =>
      if r.cTail != head then Effect(r, pc, Internal) else Effect(r, DeqLoad(v, head), Internal)
    case DeqLoad(v, head) => Effect(r, DeqStore(v, head, r.cTail), Internal)
    case DeqStore(v, head, tail) => Effect(r.(cTail := U32(tail + 1)), Idle, DeqDone(v))
  }

  /** The counters without wrap-around, the values by position, the position each thread last read
      or holds, and which thread holds each reserved or claimed position. */
  datatype Aux = Aux(ph: nat, pt: nat, ch: nat, ct: nat, log: seq<Node>, idx: map<Tid, nat>,
                     pOwner: map<nat, Tid>, cOwner: map<nat, Tid>)

  function Track(x: Aux, r: Ring, pc: Pc, t: Tid): Aux {
    match pc
    case EnqStart(_) => x.(idx := x.idx[t := x.ph])
    case EnqCas(v, head) =>
      if r.pHead == head then
        x.(ph := x.ph + 1, log := x.log + [v], idx := x.idx[t := x.ph], pOwner := x.pOwner[x.ph := t])
      else x
    case EnqStore(_, _, _) => x.(pt := x.pt + 1, pOwner := x.pOwner - {x.pt})
    case DeqStart => x.(idx := x.idx[t := x.ch])
    case DeqCas(head) =>
      if r.cHead == head then x.(ch := x.ch + 1, idx := x.idx[t := x.ch], cOwner := x.cOwner[x.ch := t]) else x
    case DeqStore(_, _, _) => x.(ct := x.ct + 1, cOwner := x.cOwner - {x.ct})
    case _ => x
  }

  datatype State = State(ring: Ring, pc: map<Tid, Pc>, hist: seq<Event>, aux: Aux)

  datatype Move = Move(t: Tid, call: Call)

  predicate Shaped(s: State) {
    |s.ring.nodes| > 0 && s.ring.mask == |s.ring.nodes| - 1
  }

  function PcOf(s: State, t: Tid): Pc {
    if t in s.pc then s.pc[t] else Idle
  }

  function Step(s: State, m: Move): (s': State)
    requires Shaped(s)
    ensures Shaped(s')
  {
    var e := Next(s.ring, PcOf(s, m.t), m.call);
    State(e.ring, s.pc[m.t := e.pc], s.hist + [e.event], Track(s.aux, s.ring, PcOf(s, m.t), m.t))
  }

  /** A fresh queue of 2^k units, as `QueueInit` leaves it, and no operation under way. */
  function Init(k: nat): (s: State)
    ensures Shaped(s)
  {
    State(Ring(Pow2(k) - 1, 0, 0, 0, 0, seq(Pow2(k), _ => 0)), map[], [],
          Aux(0, 0, 0, 0, [], map[], map[], map[]))
  }

  function Run(k: nat, sched: seq<Move>): (s: State)
    ensures Shaped(s)
  {
    if sched == [] then Init(k) else Step(Run(k, sched[..|sched| - 1]), sched[|sched| - 1])
  }

  /** Fewer than 2^32 head advances since the moving thread read the head it is about to swap. */
  predicate Timely(s: State, t: Tid) {
    var pc := PcOf(s, t);
    && (pc.EnqCas? && t in s.aux.idx ==> s.aux.ph - s.aux.idx[t] < TWO32)
    && (pc.DeqCas? && t in s.aux.idx ==> s.aux.ch - s.aux.idx[t] < TWO32)
  }

  predicate TimelyAt(k: nat, sched: seq<Move>, i: nat)
    requires i < |sched|
  {
    Timely(Run(k, sched[..i]), sched[i].t)
  }

  predicate TimelyRun(k: nat, sched: seq<Move>) {
    forall i :: 0 <= i < |sched| ==> TimelyAt(k, sched, i)
  }

  /** A swap of the moving thread that succeeds finds a free unit, or an unclaimed value. */
  predicate Roomy(s: State, t: Tid) {
    var pc := PcOf(s, t);
    && (pc.EnqCas? && s.ring.pHead == pc.head ==> s.aux.ph < s.aux.ct + s.ring.mask)
    && (pc.DeqCas? && s.ring.cHead == pc.head ==> s.aux.ch < s.aux.pt)
  }

  predicate RoomyAt(k: nat, sched: seq<Move>, i: nat)
    requires i < |sched|
  {
    Roomy(Run(k, sched[..i]), sched[i].t)
  }

  predicate RoomyRun(k: nat, sched: seq<Move>) {
    forall i :: 0 <= i < |sched| ==> RoomyAt(k, sched, i)
  }

  /** Values of the enqueues that returned success, in the order they returned. */
  function Accepted(hist: seq<Event>): seq<Node> {
    if hist == [] then []
    else
      var e := hist[|hist| - 1];
      Accepted(hist[..|hist| - 1]) + if e.EnqDone? then [e.v] else []
  }

  /** Values of the dequeues that returned success, in the order they returned. */
  function Delivered(hist: seq<Event>): seq<Node> {
    if hist == [] then []
    else
      var e := hist[|hist| - 1];
      Delivered(hist[..|hist| - 1]) + if e.DeqDone? then [e.v] else []
  }

  // ------------------------------------------------------------------ invariant

  ghost predicate CountersOrdered(s: State) {
    var x := s.aux;
    x.ct <= x.ch <= x.pt <= x.ph <= x.ct + s.ring.mask && |x.log| == x.ph
  }

  ghost predicate WordsAgree(s: State) {
    var x, r := s.aux, s.ring;
    r.pHead == U32(x.ph) && r.pTail == U32(x.pt) && r.cHead == U32(x.ch) && r.cTail == U32(x.ct)
  }

  /** The node slot of position i. */
  function Slot(r: Ring, i: nat): (j: nat)
    requires |r.nodes| > 0
    ensures j < |r.nodes|
  {
    i % |r.nodes|
  }

  /** Every published position that has not been released still holds its value. */
  ghost predicate SlotsHold(s: State)
    requires Shaped(s) && CountersOrdered(s)
  {
    forall i :: s.aux.ct <= i < s.aux.pt ==> s.ring.nodes[Slot(s.ring, i)] == s.aux.log[i]
  }

  predicate Reserving(pc: Pc) { pc.EnqWrite? || pc.EnqWait? || pc.EnqLoad? || pc.EnqStore? }

  predicate Claiming(pc: Pc) { pc.DeqRead? || pc.DeqWait? || pc.DeqLoad? || pc.DeqStore? }

  /** Each position in [pt, ph) is held by one writing thread and each in [ct, ch) by one reading thread. */
  ghost predicate OwnersExact(s: State) {
    var x := s.aux;
    && (forall i :: i in x.pOwner <==> x.pt <= i < x.ph)
    && (forall i :: i in x.cOwner <==> x.ct <= i < x.ch)
    && (forall i :: i in x.pOwner ==>
          x.pOwner[i] in x.idx && x.idx[x.pOwner[i]] == i && Reserving(PcOf(s, x.pOwner[i])))
    && (forall i :: i in x.cOwner ==>
          x.cOwner[i] in x.idx && x.idx[x.cOwner[i]] == i && Claiming(PcOf(s, x.cOwner[i])))
  }

  /** Thread t read this head word from the position it remembers. */
  ghost predicate Read(s: State, t: Tid, head: nat) {
    t in s.aux.idx && head == U32(s.aux.idx[t])
  }

  /** Thread t holds a reserved position that is not yet published, for value v. */
  ghost predicate Reserved(s: State, t: Tid, v: Node, head: nat)
    requires CountersOrdered(s)
  {
    var x := s.aux;
    && Read(s, t, head)
    && x.idx[t] in x.pOwner && x.pOwner[x.idx[t]] == t && x.pt <= x.idx[t] < x.ph && x.log[x.idx[t]] == v
  }

  ghost predicate Written(s: State, t: Tid, v: Node, head: nat)
    requires Shaped(s) && CountersOrdered(s)
  {
    Reserved(s, t, v, head) && s.ring.nodes[Slot(s.ring, s.aux.idx[t])] == v
  }

  /** Thread t holds a claimed position that is not yet released. */
  ghost predicate Claimed(s: State, t: Tid, head: nat) {
    var x := s.aux;
    && Read(s, t, head)
    && x.idx[t] in x.cOwner && x.cOwner[x.idx[t]] == t && x.ct <= x.idx[t] < x.ch
  }

  ghost predicate Fetched(s: State, t: Tid, v: Node, head: nat)
    requires CountersOrdered(s)
  {
    Claimed(s, t, head) && s.aux.log[s.aux.idx[t]] == v
  }

  ghost predicate ThreadOk(s: State, t: Tid)
    requires Shaped(s) && CountersOrdered(s)
  {
    var x, mask := s.aux, s.ring.mask;
    match PcOf(s, t)
    case Idle => true
    case EnqStart(_) => true
    case EnqTail(_, head) => Read(s, t, head) && x.idx[t] <= x.ph && x.idx[t] <= x.ct + mask
    case EnqCas(_, head) => Read(s, t, head) && x.idx[t] <= x.ph && x.idx[t] < x.ct + mask
    case EnqWrite(v, head) => Reserved(s, t, v, head)
    case EnqWait(v, head) => Written(s, t, v, head)
    case EnqLoad(v, head) => Written(s, t, v, head) && x.idx[t] == x.pt
    case EnqStore(v, head, tail) => Written(s, t, v, head) && x.idx[t] == x.pt && tail == head
    case DeqStart => true
    case DeqTail(head) => Read(s, t, head) && x.idx[t] <= x.ch
    case DeqCas(head) => Read(s, t, head) && x.idx[t] <= x.ch && x.idx[t] < x.pt
    case DeqRead(head) => Claimed(s, t, head)
    case DeqWait(v, head) => Fetched(s, t, v, head)
    case DeqLoad(v, head) => Fetched(s, t, v, head) && x.idx[t] == x.ct
    case DeqStore(v, head, tail) => Fetched(s, t, v, head) && x.idx[t] == x.ct && tail == head
  }

  ghost predicate HistoryAgrees(s: State)
    requires CountersOrdered(s)
  {
    Accepted(s.hist) == s.aux.log[..s.aux.pt] && Delivered(s.hist) == s.aux.log[..s.aux.ct]
  }

  ghost predicate Inv(s: State, k: nat) {
    && k <= 13 && Shaped(s) && |s.ring.nodes| == Pow2(k)
    && CountersOrdered(s) && WordsAgree(s) && SlotsHold(s) && OwnersExact(s) && HistoryAgrees(s)
    && forall t :: ThreadOk(s, t)
  }

  // ------------------------------------------------------------------ arithmetic of the counters

  lemma SlotIsMasked(r: Ring, k: nat, i: nat)
    requires k <= 32 && |r.nodes| == Pow2(k) && r.mask == |r.nodes| - 1
    ensures And(U32(i), r.mask) == Slot(r, i)
  {
    MaskIsMod(U32(i), k);
    ModMod(i, k);
  }

  lemma SlotsDistinct(r: Ring, i: nat, j: nat)
    requires |r.nodes| > 0 && i != j && i < j + |r.nodes| && j < i + |r.nodes|
    ensures Slot(r, i) != Slot(r, j)
  {
    if i < j { CloseDiffer(i, j, |r.nodes|); } else { CloseDiffer(j, i, |r.nodes|); }
  }

  lemma UnitsBounded(k: nat)
    requires k <= 13
    ensures Pow2(k) <= 8192
  {
    Pow2Add(k, 13 - k);
    assert Pow2(13) == 8192;
    assert Pow2(k) * Pow2(13 - k) >= Pow2(k);
  }

  /** A 32-bit comparison of heads is exact while the counter moved less than 2^32. */
  lemma SameWord(a: nat, b: nat)
    requires a <= b < a + TWO32
    ensures U32(a) == U32(b) ==> a == b
  {
  }

  // ------------------------------------------------------------------ every step keeps the invariant

  lemma HistoryGrows(h: seq<Event>, e: Event)
    ensures Accepted(h + [e]) == Accepted(h) + if e.EnqDone? then [e.v] else []
    ensures Delivered(h + [e]) == Delivered(h) + if e.DeqDone? then [e.v] else []
  {
    assert (h + [e])[..|h + [e]| - 1] == h;
  }

  /** What a step of another thread may do without disturbing thread u. */
  ghost predicate Undisturbed(s: State, s': State, u: Tid)
    requires Shaped(s) && Shaped(s')
  {
    var x, x', pc := s.aux, s'.aux, PcOf(s, u);
    && PcOf(s', u) == pc && |s'.ring.nodes| == |s.ring.nodes|
    && (u in x.idx ==> u in x'.idx && x'.idx[u] == x.idx[u])
    && x.ph <= x'.ph && x.pt <= x'.pt && x.ch <= x'.ch && x.ct <= x'.ct && x.log <= x'.log
    && (Reserving(pc) && u in x.idx && x.idx[u] in x.pOwner && x.pOwner[x.idx[u]] == u ==>
          var i := x.idx[u];
          && i in x'.pOwner && x'.pOwner[i] == u && x'.pt <= i && (i == x.pt ==> x'.pt == x.pt)
          && s'.ring.nodes[Slot(s'.ring, i)] == s.ring.nodes[Slot(s.ring, i)])
    && (Claiming(pc) && u in x.idx && x.idx[u] in x.cOwner && x.cOwner[x.idx[u]] == u ==>
          var i := x.idx[u];
          i in x'.cOwner && x'.cOwner[i] == u && x'.ct <= i && (i == x.ct ==> x'.ct == x.ct))
  }

  lemma OtherKeeps(s: State, s': State, u: Tid)
    requires Shaped(s) && Shaped(s') && CountersOrdered(s) && CountersOrdered(s')
    requires ThreadOk(s, u) && Undisturbed(s, s', u)
    ensures ThreadOk(s', u)
  {
  }

  /** Steps that change no shared word: calls, reads, failed swaps and spins. */
  predicate LocalMove(s: State, m: Move) {
    var pc := PcOf(s, m.t);
    && !pc.EnqWrite? && !pc.EnqStore? && !pc.DeqStore? && !(pc.EnqCas? && s.ring.pHead == pc.head)
    && !(pc.DeqCas? && s.ring.cHead == pc.head)
  }

  lemma LocalEffect(s: State, m: Move)
    requires Shaped(s) && LocalMove(s, m)
    ensures var s' := Step(s, m);
            && s'.ring == s.ring && s'.aux == s.aux.(idx := s'.aux.idx)
            && (forall u :: u != m.t ==> PcOf(s', u) == PcOf(s, u))
            && (forall u :: u != m.t && u in s.aux.idx ==> u in s'.aux.idx && s'.aux.idx[u] == s.aux.idx[u])
            && (Reserving(PcOf(s, m.t)) || Claiming(PcOf(s, m.t)) ==> s'.aux == s.aux)
            && Reserving(PcOf(s', m.t)) == Reserving(PcOf(s, m.t)) && Claiming(PcOf(s', m.t)) == Claiming(PcOf(s, m.t))
            && s'.hist == s.hist + [Next(s.ring, PcOf(s, m.t), m.call).event]
            && !s'.hist[|s.hist|].EnqDone? && !s'.hist[|s.hist|].DeqDone?
  {
  }

  /** A thread that only reads: its own next state is right. */
  lemma ReadingThread(s: State, k: nat, m: Move, s': State)
    requires Shaped(s) && CountersOrdered(s) && WordsAgree(s) && ThreadOk(s, m.t) && s' == Step(s, m)
    requires PcOf(s, m.t).EnqTail? || PcOf(s, m.t).DeqTail?
    ensures CountersOrdered(s') && ThreadOk(s', m.t)
  {
    var t, x := m.t, s.aux;
    if PcOf(s, m.t).EnqTail? {
      WordSub(s.ring.mask, x.ct, x.idx[t]);
    } else {
      WordSub(0, x.pt, x.idx[t]);
    }
  }

  /** A thread that waits its turn or fetches its value. */
  lemma WaitingThread(s: State, k: nat, m: Move, s': State)
    requires k <= 13 && Shaped(s) && |s.ring.nodes| == Pow2(k) && CountersOrdered(s) && WordsAgree(s) &&
        ThreadOk(s, m.t)
    requires s' == Step(s, m) && SlotsHold(s)
    requires PcOf(s, m.t).EnqWait? || PcOf(s, m.t).DeqWait? || PcOf(s, m.t).DeqRead?
    ensures CountersOrdered(s') && ThreadOk(s', m.t)
  {
    var x, t := s.aux, m.t;
    UnitsBounded(k);
    if PcOf(s, t).EnqWait? {
      SameWord(x.pt, x.idx[t]);
    } else if PcOf(s, t).DeqWait? {
      SameWord(x.ct, x.idx[t]);
    } else {
      SlotIsMasked(s.ring, k, x.idx[t]);
    }
  }

  lemma LocalThread(s: State, k: nat, m: Move, s': State)
    requires k <= 13 && Shaped(s) && |s.ring.nodes| == Pow2(k) && CountersOrdered(s) && WordsAgree(s) &&
        ThreadOk(s, m.t)
    requires LocalMove(s, m) && CountersOrdered(s') && s' == Step(s, m) && SlotsHold(s)
    ensures ThreadOk(s', m.t)
  {
    var pc := PcOf(s, m.t);
    if pc.EnqTail? || pc.DeqTail? {
      ReadingThread(s, k, m, s');
    } else if pc.EnqWait? || pc.DeqWait? || pc.DeqRead? {
      WaitingThread(s, k, m, s');
    }
  }

  lemma LocalStepKeeps(s: State, k: nat, m: Move, s': State)
    requires Inv(s, k) && s' == Step(s, m) && LocalMove(s, m)
    ensures Inv(s', k)
  {
    var t := m.t;
    LocalEffect(s, m);
    HistoryGrows(s.hist, s'.hist[|s.hist|]);
    assert ThreadOk(s, t);
    LocalThread(s, k, m, s');
    forall u | u != t ensures ThreadOk(s', u) {
      assert ThreadOk(s, u);
      OtherKeeps(s, s', u);
    }
  }

  lemma ReserveOther(s: State, s': State, t: Tid, v: Node, u: Tid)
    requires Shaped(s) && Shaped(s') && CountersOrdered(s) && CountersOrdered(s') && ThreadOk(s, u) && u != t
    requires s'.ring == s.ring.(pHead := s'.ring.pHead) && PcOf(s', u) == PcOf(s, u)
    requires s'.aux == s.aux.(ph := s.aux.ph + 1, log := s.aux.log + [v], idx := s.aux.idx[t := s.aux.ph],
                              pOwner := s.aux.pOwner[s.aux.ph := t])
    ensures ThreadOk(s', u)
  {
    OtherKeeps(s, s', u);
  }

  lemma ReserveEffect(s: State, k: nat, m: Move, s': State)
    requires Inv(s, k) && s' == Step(s, m)
    requires var pc := PcOf(s, m.t); pc.EnqCas? && s.ring.pHead == pc.head
    ensures var x, v, head := s.aux, PcOf(s, m.t).v, PcOf(s, m.t).head;
            && head == U32(x.ph)
            && s' == State(s.ring.(pHead := U32(x.ph + 1)), s.pc[m.t := EnqWrite(v, head)], s.hist + [Internal],
                           x.(ph := x.ph + 1, log := x.log + [v], idx := x.idx[m.t := x.ph],
                             pOwner := x.pOwner[x.ph := m.t]))
  {
    WordStep(s.aux.ph, 1);
  }

  lemma ReserveOwners(s: State, s': State, t: Tid, v: Node, head: nat)
    requires OwnersExact(s) && s.aux.pt <= s.aux.ph && PcOf(s, t).EnqCas?
    requires s'.pc == s.pc[t := EnqWrite(v, head)]
    requires s'.aux == s.aux.(ph := s.aux.ph + 1, log := s.aux.log + [v], idx := s.aux.idx[t := s.aux.ph],
                              pOwner := s.aux.pOwner[s.aux.ph := t])
    ensures OwnersExact(s')
  {
  }

  lemma ReserveKeeps(s: State, k: nat, m: Move, s': State)
    requires Inv(s, k) && s' == Step(s, m) && Roomy(s, m.t)
    requires var pc := PcOf(s, m.t); pc.EnqCas? && s.ring.pHead == pc.head
    ensures Inv(s', k)
  {
    var t, x, pc := m.t, s.aux, PcOf(s, m.t);
    ReserveEffect(s, k, m, s');
    ReserveOwners(s, s', t, pc.v, pc.head);
    HistoryGrows(s.hist, Internal);
    assert s'.aux.log[..s'.aux.pt] == x.log[..x.pt] && s'.aux.log[..s'.aux.ct] == x.log[..x.ct];
    assert ThreadOk(s', t);
    forall u | u != t ensures ThreadOk(s', u) {
      assert ThreadOk(s, u);
      ReserveOther(s, s', t, pc.v, u);
    }
  }

  lemma WriteEffect(s: State, k: nat, m: Move, s': State)
    requires Inv(s, k) && s' == Step(s, m) && PcOf(s, m.t).EnqWrite?
    ensures var x, r, v, head := s.aux, s.ring, PcOf(s, m.t).v, PcOf(s, m.t).head;
            && Reserved(s, m.t, v, head) && x.pt <= x.idx[m.t] < x.ph
            && s' == State(r.(nodes := r.nodes[Slot(r, x.idx[m.t]) := v]), s.pc[m.t := EnqWait(v, head)],
                s.hist + [Internal], x)
  {
    assert ThreadOk(s, m.t);
    SlotIsMasked(s.ring, k, s.aux.idx[m.t]);
  }

  /** A store at the slot of a live position leaves the slots of the other live positions. */
  lemma OtherSlots(r: Ring, r': Ring, lo: nat, hi: nat, i: nat, v: Node)
    requires |r.nodes| > 0 && lo <= i < hi <= lo + |r.nodes| && r' == r.(nodes := r.nodes[Slot(r, i) := v])
    ensures forall j :: lo <= j < hi && j != i ==> r'.nodes[Slot(r', j)] == r.nodes[Slot(r, j)]
  {
    forall j | lo <= j < hi && j != i ensures r'.nodes[Slot(r', j)] == r.nodes[Slot(r, j)] {
      SlotsDistinct(r, i, j);
    }
  }

  lemma WriteKeeps(s: State, k: nat, m: Move, s': State)
    requires Inv(s, k) && s' == Step(s, m) && PcOf(s, m.t).EnqWrite?
    ensures Inv(s', k)
  {
    var t, x := m.t, s.aux;
    WriteEffect(s, k, m, s');
    OtherSlots(s.ring, s'.ring, x.ct, x.ph, x.idx[t], PcOf(s, t).v);
    HistoryGrows(s.hist, Internal);
    forall u | u != t ensures ThreadOk(s', u) {
      assert ThreadOk(s, u);
      OtherKeeps(s, s', u);
    }
  }

  lemma PublishEffect(s: State, k: nat, m: Move)
    requires Inv(s, k) && PcOf(s, m.t).EnqStore?
    ensures var s', x, v := Step(s, m), s.aux, PcOf(s, m.t).v;
            && m.t in x.idx && x.idx[m.t] == x.pt && x.pt in x.pOwner && x.pOwner[x.pt] == m.t
            && s.ring.nodes[Slot(s.ring, x.pt)] == v && x.log[x.pt] == v
            && s' == State(s.ring.(pTail := U32(x.pt + 1)), s.pc[m.t := Idle], s.hist + [EnqDone(v)],
                           x.(pt := x.pt + 1, pOwner := x.pOwner - {x.pt}))
  {
    assert ThreadOk(s, m.t);
    WordStep(s.aux.pt, 1);
  }

  /** The positions held after position pt is published. */
  lemma PublishOwners(s: State, s': State, t: Tid)
    requires OwnersExact(s) && s.aux.pt < s.aux.ph && s.aux.pOwner[s.aux.pt] == t && PcOf(s, t).EnqStore?
    requires s'.pc == s.pc[t := Idle] && s'.aux == s.aux.(pt := s.aux.pt + 1, pOwner := s.aux.pOwner - {s.aux.pt})
    ensures OwnersExact(s')
  {
  }

  lemma PublishOther(s: State, s': State, t: Tid, u: Tid)
    requires Shaped(s) && Shaped(s') && CountersOrdered(s) && CountersOrdered(s') && ThreadOk(s, u) && u != t
    requires s.aux.pt in s.aux.pOwner && s.aux.pOwner[s.aux.pt] == t
    requires s'.ring == s.ring.(pTail := s'.ring.pTail) && s'.pc == s.pc[t := Idle]
    requires s'.aux == s.aux.(pt := s.aux.pt + 1, pOwner := s.aux.pOwner - {s.aux.pt})
    ensures ThreadOk(s', u)
  {
    OtherKeeps(s, s', u);
  }

  lemma PublishKeeps(s: State, k: nat, m: Move, s': State)
    requires Inv(s, k) && s' == Step(s, m) && PcOf(s, m.t).EnqStore?
    ensures Inv(s', k)
  {
    var t, x, v := m.t, s.aux, PcOf(s, m.t).v;
    PublishEffect(s, k, m);
    PublishOwners(s, s', t);
    HistoryGrows(s.hist, EnqDone(v));
    assert x.log[..x.pt + 1] == x.log[..x.pt] + [v];
    forall u | u != t ensures ThreadOk(s', u) {
      assert ThreadOk(s, u);
      PublishOther(s, s', t, u);
    }
  }

  lemma ClaimEffect(s: State, k: nat, m: Move, s': State)
    requires Inv(s, k) && s' == Step(s, m)
    requires var pc := PcOf(s, m.t); pc.DeqCas? && s.ring.cHead == pc.head
    ensures var x, head := s.aux, PcOf(s, m.t).head;
            && head == U32(x.ch)
            && s' == State(s.ring.(cHead := U32(x.ch + 1)), s.pc[m.t := DeqRead(head)], s.hist + [Internal],
                           x.(ch := x.ch + 1, idx := x.idx[m.t := x.ch], cOwner := x.cOwner[x.ch := m.t]))
  {
    WordStep(s.aux.ch, 1);
  }

  lemma ClaimOwners(s: State, s': State, t: Tid, head: nat)
    requires OwnersExact(s) && s.aux.ct <= s.aux.ch && PcOf(s, t).DeqCas?
    requires s'.pc == s.pc[t := DeqRead(head)]
    requires s'.aux == s.aux.(ch := s.aux.ch + 1, idx := s.aux.idx[t := s.aux.ch],
        cOwner := s.aux.cOwner[s.aux.ch := t])
    ensures OwnersExact(s')
  {
  }

  lemma ClaimOther(s: State, s': State, t: Tid, u: Tid)
    requires Shaped(s) && Shaped(s') && CountersOrdered(s) && CountersOrdered(s') && ThreadOk(s, u) && u != t
    requires s'.ring == s.ring.(cHead := s'.ring.cHead) && PcOf(s', u) == PcOf(s, u)
    requires s'.aux == s.aux.(ch := s.aux.ch + 1, idx := s.aux.idx[t := s.aux.ch],
        cOwner := s.aux.cOwner[s.aux.ch := t])
    ensures ThreadOk(s', u)
  {
    OtherKeeps(s, s', u);
  }

  lemma ClaimKeeps(s: State, k: nat, m: Move, s': State)
    requires Inv(s, k) && s' == Step(s, m) && Roomy(s, m.t)
    requires var pc := PcOf(s, m.t); pc.DeqCas? && s.ring.cHead == pc.head
    ensures Inv(s', k)
  {
    var t := m.t;
    ClaimEffect(s, k, m, s');
    ClaimOwners(s, s', t, PcOf(s, t).head);
    HistoryGrows(s.hist, Internal);
    assert ThreadOk(s', t);
    forall u | u != t ensures ThreadOk(s', u) {
      assert ThreadOk(s, u);
      ClaimOther(s, s', t, u);
    }
  }

  lemma ReleaseEffect(s: State, k: nat, m: Move)
    requires Inv(s, k) && PcOf(s, m.t).DeqStore?
    ensures var s', x, v := Step(s, m), s.aux, PcOf(s, m.t).v;
            && m.t in x.idx && x.idx[m.t] == x.ct && x.ct in x.cOwner && x.cOwner[x.ct] == m.t && x.log[x.ct] == v
            && s' == State(s.ring.(cTail := U32(x.ct + 1)), s.pc[m.t := Idle], s.hist + [DeqDone(v)],
                           x.(ct := x.ct + 1, cOwner := x.cOwner - {x.ct}))
  {
    assert ThreadOk(s, m.t);
    WordStep(s.aux.ct, 1);
  }

  lemma ReleaseOwners(s: State, s': State, t: Tid)
    requires OwnersExact(s) && s.aux.ct < s.aux.ch && s.aux.cOwner[s.aux.ct] == t && PcOf(s, t).DeqStore?
    requires s'.pc == s.pc[t := Idle] && s'.aux == s.aux.(ct := s.aux.ct + 1, cOwner := s.aux.cOwner - {s.aux.ct})
    ensures OwnersExact(s')
  {
  }

  lemma ReleaseOther(s: State, s': State, t: Tid, u: Tid)
    requires Shaped(s) && Shaped(s') && CountersOrdered(s) && CountersOrdered(s') && ThreadOk(s, u) && u != t
    requires s.aux.ct in s.aux.cOwner && s.aux.cOwner[s.aux.ct] == t
    requires s'.ring == s.ring.(cTail := s'.ring.cTail) && s'.pc == s.pc[t := Idle]
    requires s'.aux == s.aux.(ct := s.aux.ct + 1, cOwner := s.aux.cOwner - {s.aux.ct})
    ensures ThreadOk(s', u)
  {
    OtherKeeps(s, s', u);
  }

  lemma ReleaseKeeps(s: State, k: nat, m: Move, s': State)
    requires Inv(s, k) && s' == Step(s, m) && PcOf(s, m.t).DeqStore?
    ensures Inv(s', k)
  {
    var t, x, v := m.t, s.aux, PcOf(s, m.t).v;
    ReleaseEffect(s, k, m);
    ReleaseOwners(s, s', t);
    HistoryGrows(s.hist, DeqDone(v));
    assert x.log[..x.ct + 1] == x.log[..x.ct] + [v];
    forall u | u != t ensures ThreadOk(s', u) {
      assert ThreadOk(s, u);
      ReleaseOther(s, s', t, u);
    }
  }

  lemma StepKeeps(s: State, k: nat, m: Move, s': State)
    requires Inv(s, k) && s' == Step(s, m) && Roomy(s, m.t)
    ensures Inv(s', k)
  {
    var pc := PcOf(s, m.t);
    if pc.EnqWrite? {
      WriteKeeps(s, k, m, s');
    } else if pc.EnqStore? {
      PublishKeeps(s, k, m, s');
    } else if pc.DeqStore? {
      ReleaseKeeps(s, k, m, s');
    } else if pc.EnqCas? && s.ring.pHead == pc.head {
      ReserveKeeps(s, k, m, s');
    } else if pc.DeqCas? && s.ring.cHead == pc.head {
      ClaimKeeps(s, k, m, s');
    } else {
      LocalStepKeeps(s, k, m, s');
    }
  }

  /** A swap that succeeds within 2^32 head advances finds a free unit, or an unclaimed value. */
  lemma TimelyIsRoomy(s: State, k: nat, t: Tid)
    requires Inv(s, k) && Timely(s, t)
    ensures Roomy(s, t)
  {
    var x, pc := s.aux, PcOf(s, t);
    assert ThreadOk(s, t);
    if pc.EnqCas? {
      SameWord(x.idx[t], x.ph);
    } else if pc.DeqCas? {
      SameWord(x.idx[t], x.ch);
    }
  }

  /** A step keeps the whole invariant, with its order, slots, owners and histories, if and only if a
      swap that succeeds in it finds a free unit or an unclaimed value. */
  lemma StepKeepsExactly(s: State, k: nat, m: Move, s': State)
    requires Inv(s, k) && s' == Step(s, m)
    ensures Inv(s', k) <==> Roomy(s, m.t)
  {
    var pc := PcOf(s, m.t);
    if Roomy(s, m.t) {
      StepKeeps(s, k, m, s');
    } else if pc.EnqCas? {
      ReserveEffect(s, k, m, s');
    } else {
      ClaimEffect(s, k, m, s');
    }
  }

  lemma InitHolds(k: nat)
    requires k <= 13
    ensures Inv(Init(k), k)
  {
  }

  /** A position of a schedule is the same position of every prefix that contains it. */
  lemma SamePosition(k: nat, sched: seq<Move>, n: nat, i: nat)
    requires i < n <= |sched|
    ensures RoomyAt(k, sched[..n], i) == RoomyAt(k, sched, i) && TimelyAt(k, sched[..n], i) == TimelyAt(k, sched, i)
  {
    assert sched[..n][..i] == sched[..i];
  }

  lemma PrefixesToo(k: nat, sched: seq<Move>, n: nat)
    requires n <= |sched|
    ensures RoomyRun(k, sched) ==> RoomyRun(k, sched[..n])
    ensures TimelyRun(k, sched) ==> TimelyRun(k, sched[..n])
  {
    forall i | 0 <= i < n
      ensures RoomyAt(k, sched[..n], i) == RoomyAt(k, sched, i) && TimelyAt(k, sched[..n], i) == TimelyAt(k, sched, i)
    {
      SamePosition(k, sched, n, i);
    }
  }

  lemma LastStepToo(k: nat, sched: seq<Move>)
    requires sched != []
    ensures RoomyRun(k, sched[..|sched| - 1]) && RoomyAt(k, sched, |sched| - 1) ==> RoomyRun(k, sched)
    ensures TimelyRun(k, sched[..|sched| - 1]) && TimelyAt(k, sched, |sched| - 1) ==> TimelyRun(k, sched)
  {
    var n := |sched| - 1;
    forall i | 0 <= i < n
      ensures RoomyAt(k, sched[..n], i) == RoomyAt(k, sched, i) && TimelyAt(k, sched[..n], i) == TimelyAt(k, sched, i)
    {
      SamePosition(k, sched, n, i);
    }
  }

  lemma {:induction false} RoomyRunKeeps(k: nat, sched: seq<Move>)
    requires k <= 13 && RoomyRun(k, sched)
    ensures Inv(Run(k, sched), k)
  {
    if sched == [] {
      InitHolds(k);
    } else {
      var n := |sched| - 1;
      PrefixesToo(k, sched, n);
      RoomyRunKeeps(k, sched[..n]);
      assert RoomyAt(k, sched, n);
      StepKeeps(Run(k, sched[..n]), k, sched[n], Run(k, sched));
    }
  }

  ghost predicate InvAfter(k: nat, sched: seq<Move>, i: nat)
    requires i <= |sched|
  {
    Inv(Run(k, sched[..i]), k)
  }

  /** For every schedule, timely or not: the invariant holds after every prefix if and only if every
      swap that succeeded found a free unit or an unclaimed value. */
  lemma RunKeepsExactly(k: nat, sched: seq<Move>)
    requires k <= 13
    ensures (forall i :: 0 <= i <= |sched| ==> InvAfter(k, sched, i)) <==> RoomyRun(k, sched)
  {
    if RoomyRun(k, sched) {
      forall i | 0 <= i <= |sched| ensures InvAfter(k, sched, i) {
        PrefixesToo(k, sched, i);
        RoomyRunKeeps(k, sched[..i]);
      }
    } else {
      var i :| 0 <= i < |sched| && !RoomyAt(k, sched, i);
      CrowdedBreaks(k, sched, i);
    }
  }

  lemma CrowdedBreaks(k: nat, sched: seq<Move>, i: nat)
    requires k <= 13 && i < |sched| && !RoomyAt(k, sched, i)
    ensures !InvAfter(k, sched, i) || !InvAfter(k, sched, i + 1)
  {
    assert sched[..i + 1][..i] == sched[..i];
    if InvAfter(k, sched, i) {
      StepKeepsExactly(Run(k, sched[..i]), k, sched[i], Run(k, sched[..i + 1]));
    }
  }

  /** In a timely schedule every swap finds room. */
  lemma {:induction false} TimelyRunIsRoomy(k: nat, sched: seq<Move>)
    requires k <= 13 && TimelyRun(k, sched)
    ensures RoomyRun(k, sched)
  {
    if sched != [] {
      var n := |sched| - 1;
      PrefixesToo(k, sched, n);
      TimelyRunIsRoomy(k, sched[..n]);
      RoomyRunKeeps(k, sched[..n]);
      assert TimelyAt(k, sched, n);
      TimelyIsRoomy(Run(k, sched[..n]), k, sched[n].t);
      LastStepToo(k, sched);
    }
  }

  lemma RunKeeps(k: nat, sched: seq<Move>)
    requires k <= 13 && TimelyRun(k, sched)
    ensures Inv(Run(k, sched), k)
  {
    TimelyRunIsRoomy(k, sched);
    RoomyRunKeeps(k, sched);
  }

  // ------------------------------------------------------------------ what every run guarantees

  /** In every interleaving the four counters keep their order and the 32-bit words are their residues. */
  lemma CountersStayOrdered(k: nat, sched: seq<Move>)
    requires k <= 13 && TimelyRun(k, sched)
    ensures var s := Run(k, sched); var x, r := s.aux, s.ring;
            && x.ct <= x.ch <= x.pt <= x.ph <= x.ct + (Pow2(k) - 1)
            && r.pHead == x.ph % TWO32 && r.pTail == x.pt % TWO32
            && r.cHead == x.ch % TWO32 && r.cTail == x.ct % TWO32
  {
    RunKeeps(k, sched);
  }

  /** In every interleaving, what dequeues returned is a prefix of what enqueues were told was
      accepted, in the same order, and at most `unitNum - 1` accepted values are outstanding. */
  lemma FirstInFirstOut(k: nat, sched: seq<Move>)
    requires k <= 13 && TimelyRun(k, sched)
    ensures var h := Run(k, sched).hist;
            Delivered(h) <= Accepted(h) && |Accepted(h)| - |Delivered(h)| <= Pow2(k) - 1
  {
    RunKeeps(k, sched);
    var x := Run(k, sched).aux;
    assert x.log[..x.ct] == x.log[..x.pt][..x.ct];
  }

  /** A producer's store hits no slot whose value is still to be read, and a consumer's load
      hits only a published slot, which holds the value stored for that position. */
  lemma SlotsNeverClash(k: nat, sched: seq<Move>, m: Move)
    requires k <= 13 && TimelyRun(k, sched)
    ensures var s := Run(k, sched); var s', x := Step(s, m), s.aux;
            && (PcOf(s, m.t).EnqWrite? ==>
                  m.t in x.idx && x.pt <= x.idx[m.t] < x.ph &&
                  forall j :: x.ct <= j < x.ph && j != x.idx[m.t] ==>
                    s'.ring.nodes[Slot(s'.ring, j)] == s.ring.nodes[Slot(s.ring, j)])
            && (PcOf(s, m.t).DeqRead? ==>
                  m.t in x.idx && x.ct <= x.idx[m.t] < x.pt <= |x.log| &&
                  PcOf(s', m.t) == DeqWait(x.log[x.idx[m.t]], PcOf(s, m.t).head))
  {
    RunKeeps(k, sched);
    var s := Run(k, sched);
    var s', x, r, t := Step(s, m), s.aux, s.ring, m.t;
    assert ThreadOk(s, t);
    if PcOf(s, t).EnqWrite? {
      SlotIsMasked(r, k, x.idx[t]);
      OtherSlots(r, s'.ring, x.ct, x.ph, x.idx[t], PcOf(s, t).v);
    } else if PcOf(s, t).DeqRead? {
      SlotIsMasked(r, k, x.idx[t]);
    }
  }

  /** A difference of words is zero exactly when the true difference is a multiple of 2^32. */
  lemma ZeroDifference(d: nat)
    ensures U32(d) < 1 <==> d % TWO32 == 0
    ensures d < TWO32 ==> (U32(d) < 1 <==> d == 0)
  {
  }

  lemma FullDecision(s: State, m: Move)
    requires Shaped(s) && CountersOrdered(s) && WordsAgree(s) && ThreadOk(s, m.t) && PcOf(s, m.t).EnqTail?
    ensures m.t in s.aux.idx && s.aux.idx[m.t] <= s.aux.ph && s.aux.idx[m.t] <= s.aux.ct + s.ring.mask
    ensures Next(s.ring, PcOf(s, m.t), m.call).event == EnqFull <==>
              U32(s.ring.mask + s.aux.ct - s.aux.idx[m.t]) < 1
  {
    WordSub(s.ring.mask, s.aux.ct, s.aux.idx[m.t]);
  }

  lemma EmptyDecision(s: State, m: Move)
    requires Shaped(s) && CountersOrdered(s) && WordsAgree(s) && ThreadOk(s, m.t) && PcOf(s, m.t).DeqTail?
    ensures m.t in s.aux.idx && s.aux.idx[m.t] <= s.aux.ch
    ensures Next(s.ring, PcOf(s, m.t), m.call).event == DeqEmpty <==> U32(s.aux.pt - s.aux.idx[m.t]) < 1
  {
    WordSub(0, s.aux.pt, s.aux.idx[m.t]);
  }

  /** QUEUE_FULL follows from the 32-bit difference alone. While the consumer tail is less than 2^32
      past the head the producer read, it is returned exactly when that head is `mask` past the tail,
      and then all `mask` usable units are reserved at the moment the tail is read. */
  ghost predicate FullExact(s: State, m: Move)
    requires Shaped(s)
  {
    var x, mask, full := s.aux, s.ring.mask, Next(s.ring, PcOf(s, m.t), m.call).event == EnqFull;
    && m.t in x.idx && x.idx[m.t] <= x.ct + mask
    && (full <==> (mask + x.ct - x.idx[m.t]) % TWO32 == 0)
    && (mask + x.ct - x.idx[m.t] < TWO32 ==> (full <==> x.idx[m.t] == x.ct + mask))
    && (mask + x.ct - x.idx[m.t] < TWO32 && full ==> x.ph - x.ct == mask)
  }

  /** QUEUE_EMPTY likewise: while the producer tail is less than 2^32 past the head the consumer read,
      it is returned exactly when they are equal, and then every published value is already claimed. */
  ghost predicate EmptyExact(s: State, m: Move)
    requires Shaped(s)
  {
    var x, empty := s.aux, Next(s.ring, PcOf(s, m.t), m.call).event == DeqEmpty;
    && m.t in x.idx && x.idx[m.t] <= x.pt
    && (empty <==> (x.pt - x.idx[m.t]) % TWO32 == 0)
    && (x.pt - x.idx[m.t] < TWO32 ==> (empty <==> x.idx[m.t] == x.pt))
    && (x.pt - x.idx[m.t] < TWO32 && empty ==> x.ch == x.pt)
  }

  lemma RefusalsExact(s: State, m: Move)
    requires Shaped(s) && CountersOrdered(s) && WordsAgree(s) && ThreadOk(s, m.t)
    ensures PcOf(s, m.t).EnqTail? ==> FullExact(s, m)
    ensures PcOf(s, m.t).DeqTail? ==> EmptyExact(s, m)
  {
    if PcOf(s, m.t).EnqTail? {
      FullDecision(s, m);
      ZeroDifference(s.ring.mask + s.aux.ct - s.aux.idx[m.t]);
    } else if PcOf(s, m.t).DeqTail? {
      EmptyDecision(s, m);
      ZeroDifference(s.aux.pt - s.aux.idx[m.t]);
    }
  }

  /** In every interleaving the two refusals are exact in the sense above. */
  lemma RefusalsAreExact(k: nat, sched: seq<Move>, m: Move)
    requires k <= 13 && TimelyRun(k, sched)
    ensures PcOf(Run(k, sched), m.t).EnqTail? ==> FullExact(Run(k, sched), m)
    ensures PcOf(Run(k, sched), m.t).DeqTail? ==> EmptyExact(Run(k, sched), m)
  {
    RunKeeps(k, sched);
    assert ThreadOk(Run(k, sched), m.t);
    RefusalsExact(Run(k, sched), m);
  }

  lemma MaskedDifference(k: nat, a: nat, b: nat)
    requires k <= 13 && b <= a < b + Pow2(k)
    ensures And(U32(U32(a) - U32(b)), Pow2(k) - 1) == a - b
  {
    UnitsBounded(k);
    WordDifference(0, a, b);
    MaskSmall(a - b, k);
  }

  /** The count that is computed from a snapshot of the tails. */
  function CountWord(r: Ring): nat {
    And(U32(r.pTail - r.cTail), r.mask)
  }

  /** On an atomic snapshot the masked difference of the tails is the number of accepted values
      that no dequeue has returned yet. */
  lemma CountIsExact(k: nat, sched: seq<Move>)
    requires k <= 13 && TimelyRun(k, sched)
    ensures var s := Run(k, sched); CountWord(s.ring) == |Accepted(s.hist)| - |Delivered(s.hist)|
  {
    RunKeeps(k, sched);
    CountOf(Run(k, sched), k);
  }

  lemma CountOf(s: State, k: nat)
    requires k <= 13 && Shaped(s) && |s.ring.nodes| == Pow2(k)
    requires CountersOrdered(s) && WordsAgree(s) && HistoryAgrees(s)
    ensures CountWord(s.ring) == |Accepted(s.hist)| - |Delivered(s.hist)|
  {
    MaskedDifference(k, s.aux.pt, s.aux.ct);
  }

  /** The published and unclaimed values, oldest first. */
  function Pending(s: State): seq<Node>
    requires s.aux.ch <= s.aux.pt <= |s.aux.log|
  {
    s.aux.log[s.aux.ch..s.aux.pt]
  }

  /** What one step of thread t does to the queue of published and unclaimed values: publishing
      appends the caller's value, a successful swap of the consumer head takes the oldest value, a
      release returns the value its thread took, QUEUE_EMPTY (within 2^32) sees an empty queue, and
      no other step changes it. */
  ghost predicate FifoStep(s: State, s': State, t: Tid) {
    var pc, x := PcOf(s, t), s.aux;
    && x.ch <= x.pt <= |x.log| && s'.aux.ch <= s'.aux.pt <= |s'.aux.log| && |s'.hist| == |s.hist| + 1
    && (if pc.EnqStore? then Pending(s') == Pending(s) + [pc.v]
        else if pc.DeqCas? && PcOf(s', t).DeqRead? then
          && Pending(s) != [] && Pending(s') == Pending(s)[1..]
          && t in s'.aux.idx && s'.aux.idx[t] == x.ch && x.log[x.ch] == Pending(s)[0]
        else Pending(s') == Pending(s))
    && (pc.DeqStore? ==> t in x.idx && x.idx[t] < |x.log| && pc.v == x.log[x.idx[t]])
    && (s'.hist[|s.hist|].DeqEmpty? && t in x.idx && x.pt - x.idx[t] < TWO32 ==> Pending(s) == [])
  }

  /** In every interleaving every step refines a first-in first-out queue. */
  lemma StepRefinesFifo(k: nat, sched: seq<Move>, m: Move)
    requires k <= 13 && TimelyRun(k, sched) && Timely(Run(k, sched), m.t)
    ensures FifoStep(Run(k, sched), Step(Run(k, sched), m), m.t)
  {
    RunKeeps(k, sched);
    TimelyIsRoomy(Run(k, sched), k, m.t);
    RefinesFifo(Run(k, sched), k, m, Step(Run(k, sched), m));
  }

  lemma FifoPublish(s: State, k: nat, m: Move, s': State)
    requires Inv(s, k) && s' == Step(s, m) && PcOf(s, m.t).EnqStore?
    ensures FifoStep(s, s', m.t)
  {
    PublishEffect(s, k, m);
    assert s.aux.log[s.aux.ch..s.aux.pt + 1] == Pending(s) + [PcOf(s, m.t).v];
  }

  lemma FifoClaim(s: State, k: nat, m: Move, s': State)
    requires Inv(s, k) && s' == Step(s, m) && Roomy(s, m.t) && PcOf(s, m.t).DeqCas?
    ensures FifoStep(s, s', m.t)
  {
    if s.ring.cHead == PcOf(s, m.t).head { ClaimEffect(s, k, m, s'); }
  }

  lemma FifoReserve(s: State, k: nat, m: Move, s': State)
    requires Inv(s, k) && s' == Step(s, m) && PcOf(s, m.t).EnqCas?
    ensures FifoStep(s, s', m.t)
  {
    if s.ring.pHead == PcOf(s, m.t).head {
      ReserveEffect(s, k, m, s');
      assert (s.aux.log + [PcOf(s, m.t).v])[s.aux.ch..s.aux.pt] == Pending(s);
    }
  }

  lemma FifoOther(s: State, k: nat, m: Move, s': State)
    requires Inv(s, k) && s' == Step(s, m) && !PcOf(s, m.t).EnqCas? && !PcOf(s, m.t).DeqCas? && !PcOf(s, m.t).EnqStore?
    ensures FifoStep(s, s', m.t)
  {
    assert ThreadOk(s, m.t);
    if PcOf(s, m.t).DeqTail? {
      EmptyDecision(s, m);
      ZeroDifference(s.aux.pt - s.aux.idx[m.t]);
    }
  }

  lemma RefinesFifo(s: State, k: nat, m: Move, s': State)
    requires Inv(s, k) && s' == Step(s, m) && Roomy(s, m.t)
    ensures FifoStep(s, s', m.t)
  {
    match PcOf(s, m.t)
    case EnqStore(_, _, _) => FifoPublish(s, k, m, s');
    case DeqCas(_) => FifoClaim(s, k, m, s');
    case EnqCas(_, _) => FifoReserve(s, k, m, s');
    case _ => FifoOther(s, k, m, s');
  }

  /** When no operation is under way every reservation has been published and every claim released,
      so no accepted value is stuck between the heads and the tails. */
  lemma QuietMeansSettled(k: nat, sched: seq<Move>)
    requires k <= 13 && TimelyRun(k, sched)
    requires forall t :: t in Run(k, sched).pc ==> Run(k, sched).pc[t] == Idle
    ensures var s := Run(k, sched); s.aux.ph == s.aux.pt == |s.aux.log| && s.aux.ch == s.aux.ct <= s.aux.pt
    ensures var s := Run(k, sched); s.ring.pHead == s.ring.pTail && s.ring.cHead == s.ring.cTail
    ensures var s := Run(k, sched); |Pending(s)| == |Accepted(s.hist)| - |Delivered(s.hist)|
  {
    RunKeeps(k, sched);
    var s := Run(k, sched);
    assert s.aux.pt !in s.aux.pOwner && s.aux.ct !in s.aux.cOwner;
  }

  // ------------------------------------------------------------------ what an operation may return, and when

  /** The thread is inside an enqueue of v. */
  predicate InEnqueue(pc: Pc, v: Node) {
    (pc.EnqStart? || pc.EnqTail? || pc.EnqCas? || Reserving(pc)) && pc.v == v
  }

  predicate InDequeue(pc: Pc) {
    pc.DeqStart? || pc.DeqTail? || pc.DeqCas? || Claiming(pc)
  }

  /** The calls: an idle thread enters the operation it calls, and only the null pointer is refused. */
  ghost predicate CallExact(s: State, s': State, m: Move, e: Event) {
    var pc, pc' := PcOf(s, m.t), PcOf(s', m.t);
    && (e == EnqInvalid <==> pc == Idle && m.call == Enqueue(0)) && (e == EnqInvalid ==> pc' == Idle)
    && (pc == Idle && m.call.Enqueue? && m.call.v != 0 ==> e == Internal && InEnqueue(pc', m.call.v))
    && (pc == Idle && m.call == Dequeue ==> e == Internal && InDequeue(pc'))
  }

  /** Inside an operation: it goes on with its value, or returns an answer of its own and is over. */
  ghost predicate ReturnExact(s: State, s': State, m: Move, e: Event) {
    var pc, pc' := PcOf(s, m.t), PcOf(s', m.t);
    && (forall v :: InEnqueue(pc, v) ==>
          (e == Internal && InEnqueue(pc', v)) || ((e == EnqFull || e == EnqDone(v)) && pc' == Idle))
    && (InDequeue(pc) ==> (e == Internal && InDequeue(pc')) || ((e == DeqEmpty || e.DeqDone?) && pc' == Idle))
  }

  /** The refusals, on the event: a full answer means that all usable units were reserved and an empty
      answer that every published value was claimed, unless the word came round. */
  ghost predicate RefusalExact(s: State, m: Move, e: Event) {
    var x, mask := s.aux, s.ring.mask;
    && (e == EnqFull ==> m.t in x.idx && (mask + x.ct - x.idx[m.t] < TWO32 ==> x.ph - x.ct == mask))
    && (e == DeqEmpty ==> m.t in x.idx && (x.pt - x.idx[m.t] < TWO32 ==> x.ch == x.pt))
  }

  /** A step appends one event and moves one thread. */
  ghost predicate EventExact(s: State, s': State, m: Move) {
    && |s'.hist| == |s.hist| + 1 && s'.hist[..|s.hist|] == s.hist
    && (forall u :: u != m.t ==> PcOf(s', u) == PcOf(s, u))
    && CallExact(s, s', m, s'.hist[|s.hist|]) && ReturnExact(s, s', m, s'.hist[|s.hist|])
    && RefusalExact(s, m, s'.hist[|s.hist|])
  }

  lemma CallsExact(s: State, m: Move, s': State)
    requires Shaped(s) && s' == Step(s, m)
    ensures CallExact(s, s', m, s'.hist[|s.hist|])
  {
  }

  lemma ReturnsExact(s: State, m: Move, s': State)
    requires Shaped(s) && s' == Step(s, m)
    ensures ReturnExact(s, s', m, s'.hist[|s.hist|])
  {
  }

  lemma AnswersExact(s: State, m: Move, s': State)
    requires Shaped(s) && CountersOrdered(s) && WordsAgree(s) && ThreadOk(s, m.t) && s' == Step(s, m)
    ensures RefusalExact(s, m, s'.hist[|s.hist|])
  {
    RefusalsExact(s, m);
  }

  /** In every interleaving, for every thread wherever it stands: what a step appends to the history
      is exact in the sense above. */
  lemma EventsAreExact(k: nat, sched: seq<Move>, m: Move)
    requires k <= 13 && TimelyRun(k, sched)
    ensures EventExact(Run(k, sched), Step(Run(k, sched), m), m)
  {
    var s := Run(k, sched);
    RunKeeps(k, sched);
    assert ThreadOk(s, m.t);
    CallsExact(s, m, Step(s, m));
    ReturnsExact(s, m, Step(s, m));
    AnswersExact(s, m, Step(s, m));
  }

  // ------------------------------------------------------------------ a thread that moves alone finishes

  /** Moving alone, thread t is done with its enqueue of v within n moves: it goes on inside the
      operation until it returns success or QUEUE_FULL. */
  ghost predicate EnqueueEnds(s: State, t: Tid, v: Node, n: nat)
    requires Shaped(s)
    decreases n
  {
    n > 0 && var s' := Step(s, Move(t, Dequeue));
    || (PcOf(s', t) == Idle && (s'.hist[|s.hist|] == EnqFull || s'.hist[|s.hist|] == EnqDone(v)))
    || (InEnqueue(PcOf(s', t), v) && EnqueueEnds(s', t, v, n - 1))
  }

  ghost predicate DequeueEnds(s: State, t: Tid, n: nat)
    requires Shaped(s)
    decreases n
  {
    n > 0 && var s' := Step(s, Move(t, Dequeue));
    || (PcOf(s', t) == Idle && (s'.hist[|s.hist|].DeqEmpty? || s'.hist[|s.hist|].DeqDone?))
    || (InDequeue(PcOf(s', t)) && DequeueEnds(s', t, n - 1))
  }

  /** No other thread holds a reserved position, and t read its head less than 2^32 advances ago. */
  ghost predicate LoneProducer(s: State, k: nat, t: Tid) {
    Inv(s, k) && (forall u :: u != t ==> !Reserving(PcOf(s, u)))
    && (t in s.aux.idx ==> s.aux.ph - s.aux.idx[t] < TWO32)
  }

  ghost predicate LoneConsumer(s: State, k: nat, t: Tid) {
    Inv(s, k) && (forall u :: u != t ==> !Claiming(PcOf(s, u)))
    && (t in s.aux.idx ==> s.aux.ch - s.aux.idx[t] < TWO32)
  }

  lemma OthersStay(s: State, m: Move, s': State, u: Tid)
    requires Shaped(s) && s' == Step(s, m) && u != m.t
    ensures PcOf(s', u) == PcOf(s, u)
  {
  }

  /** A move keeps the head that its thread read recent. */
  lemma StaysRecent(s: State, t: Tid, s': State)
    requires Shaped(s) && s' == Step(s, Move(t, Dequeue))
    requires PcOf(s, t).EnqCas? || PcOf(s, t).DeqCas? ==> t in s.aux.idx
    ensures !InDequeue(PcOf(s, t)) && (t in s.aux.idx ==> s.aux.ph - s.aux.idx[t] < TWO32) ==>
              t in s'.aux.idx ==> s'.aux.ph - s'.aux.idx[t] < TWO32
    ensures InDequeue(PcOf(s, t)) && (t in s.aux.idx ==> s.aux.ch - s.aux.idx[t] < TWO32) ==>
              t in s'.aux.idx ==> s'.aux.ch - s'.aux.idx[t] < TWO32
  {
  }

  lemma LoneKeeps(s: State, k: nat, t: Tid, s': State)
    requires LoneProducer(s, k, t) && s' == Step(s, Move(t, Dequeue)) && !InDequeue(PcOf(s, t))
    ensures LoneProducer(s', k, t)
  {
    assert ThreadOk(s, t);
    TimelyIsRoomy(s, k, t);
    StaysRecent(s, t, s');
    forall u | u != t ensures !Reserving(PcOf(s', u)) {
      OthersStay(s, Move(t, Dequeue), s', u);
    }
    StepKeeps(s, k, Move(t, Dequeue), s');
  }

  lemma LoneConsumerKeeps(s: State, k: nat, t: Tid, s': State)
    requires LoneConsumer(s, k, t) && s' == Step(s, Move(t, Dequeue)) && InDequeue(PcOf(s, t))
    ensures LoneConsumer(s', k, t)
  {
    assert ThreadOk(s, t);
    TimelyIsRoomy(s, k, t);
    StaysRecent(s, t, s');
    forall u | u != t ensures !Claiming(PcOf(s', u)) {
      OthersStay(s, Move(t, Dequeue), s', u);
    }
    StepKeeps(s, k, Move(t, Dequeue), s');
  }

  /** The only thread with a reserved position need not wait. */
  lemma OwnTurn(s: State, k: nat, t: Tid)
    requires LoneProducer(s, k, t) && PcOf(s, t).EnqWait?
    ensures s.ring.pTail == PcOf(s, t).head
  {
    assert ThreadOk(s, t);
    assert s.aux.pt in s.aux.pOwner;
  }

  lemma OwnTurnToo(s: State, k: nat, t: Tid)
    requires LoneConsumer(s, k, t) && PcOf(s, t).DeqWait?
    ensures s.ring.cTail == PcOf(s, t).head
  {
    assert ThreadOk(s, t);
    assert s.aux.ct in s.aux.cOwner;
  }

  lemma LoadedEnds(s: State, t: Tid, v: Node, n: nat)
    requires Shaped(s) && InEnqueue(PcOf(s, t), v) && (PcOf(s, t).EnqLoad? || PcOf(s, t).EnqStore?) && n >= 2
    ensures EnqueueEnds(s, t, v, n)
  {
    if PcOf(s, t).EnqLoad? {
      assert EnqueueEnds(Step(s, Move(t, Dequeue)), t, v, n - 1);
    }
  }

  lemma WrittenEnds(s: State, k: nat, t: Tid, v: Node, n: nat)
    requires LoneProducer(s, k, t) && InEnqueue(PcOf(s, t), v) && PcOf(s, t).EnqWait? && n >= 3
    ensures EnqueueEnds(s, t, v, n)
  {
    OwnTurn(s, k, t);
    LoadedEnds(Step(s, Move(t, Dequeue)), t, v, n - 1);
  }

  lemma ReservedEnds(s: State, k: nat, t: Tid, v: Node, n: nat)
    requires LoneProducer(s, k, t) && InEnqueue(PcOf(s, t), v) && Reserving(PcOf(s, t)) && n >= 4
    ensures EnqueueEnds(s, t, v, n)
  {
    if PcOf(s, t).EnqWrite? {
      var s' := Step(s, Move(t, Dequeue));
      LoneKeeps(s, k, t, s');
      WrittenEnds(s', k, t, v, n - 1);
    } else if PcOf(s, t).EnqWait? {
      WrittenEnds(s, k, t, v, n);
    } else {
      LoadedEnds(s, t, v, n);
    }
  }

  /** A swap of the current head succeeds. */
  lemma WinningEnds(s: State, k: nat, t: Tid, v: Node, n: nat)
    requires LoneProducer(s, k, t) && InEnqueue(PcOf(s, t), v) && PcOf(s, t).EnqCas? && PcOf(s, t).head == s.ring.pHead
    requires n >= 5
    ensures EnqueueEnds(s, t, v, n)
  {
    var s' := Step(s, Move(t, Dequeue));
    LoneKeeps(s, k, t, s');
    ReservedEnds(s', k, t, v, n - 1);
  }

  lemma FreshEnds(s: State, k: nat, t: Tid, v: Node, n: nat)
    requires LoneProducer(s, k, t) && InEnqueue(PcOf(s, t), v) && PcOf(s, t).EnqTail? && PcOf(s, t).head == s.ring.pHead
    requires n >= 6
    ensures EnqueueEnds(s, t, v, n)
  {
    var s' := Step(s, Move(t, Dequeue));
    if PcOf(s', t) != Idle {
      LoneKeeps(s, k, t, s');
      WinningEnds(s', k, t, v, n - 1);
    }
  }

  lemma RereadEnds(s: State, k: nat, t: Tid, v: Node, n: nat)
    requires LoneProducer(s, k, t) && PcOf(s, t) == EnqStart(v) && n >= 7
    ensures EnqueueEnds(s, t, v, n)
  {
    var s' := Step(s, Move(t, Dequeue));
    LoneKeeps(s, k, t, s');
    FreshEnds(s', k, t, v, n - 1);
  }

  lemma SwapEnds(s: State, k: nat, t: Tid, v: Node, n: nat)
    requires LoneProducer(s, k, t) && InEnqueue(PcOf(s, t), v) && PcOf(s, t).EnqCas? && n >= 8
    ensures EnqueueEnds(s, t, v, n)
  {
    var s' := Step(s, Move(t, Dequeue));
    if s.ring.pHead == PcOf(s, t).head {
      WinningEnds(s, k, t, v, n);
    } else {
      LoneKeeps(s, k, t, s');
      RereadEnds(s', k, t, v, n - 1);
    }
  }

  lemma EnqueueFinishes(s: State, k: nat, t: Tid, v: Node)
    requires LoneProducer(s, k, t) && InEnqueue(PcOf(s, t), v)
    ensures EnqueueEnds(s, t, v, 9)
  {
    var s' := Step(s, Move(t, Dequeue));
    if PcOf(s, t).EnqStart? {
      RereadEnds(s, k, t, v, 9);
    } else if PcOf(s, t).EnqTail? {
      if PcOf(s', t) != Idle {
        LoneKeeps(s, k, t, s');
        SwapEnds(s', k, t, v, 8);
      }
    } else if PcOf(s, t).EnqCas? {
      SwapEnds(s, k, t, v, 9);
    } else {
      ReservedEnds(s, k, t, v, 9);
    }
  }

  lemma ReleasedEnds(s: State, t: Tid, n: nat)
    requires Shaped(s) && (PcOf(s, t).DeqLoad? || PcOf(s, t).DeqStore?) && n >= 2
    ensures DequeueEnds(s, t, n)
  {
    if PcOf(s, t).DeqLoad? {
      assert DequeueEnds(Step(s, Move(t, Dequeue)), t, n - 1);
    }
  }

  lemma FetchedEnds(s: State, k: nat, t: Tid, n: nat)
    requires LoneConsumer(s, k, t) && PcOf(s, t).DeqWait? && n >= 3
    ensures DequeueEnds(s, t, n)
  {
    OwnTurnToo(s, k, t);
    ReleasedEnds(Step(s, Move(t, Dequeue)), t, n - 1);
  }

  lemma ClaimedEnds(s: State, k: nat, t: Tid, n: nat)
    requires LoneConsumer(s, k, t) && Claiming(PcOf(s, t)) && n >= 4
    ensures DequeueEnds(s, t, n)
  {
    if PcOf(s, t).DeqRead? {
      var s' := Step(s, Move(t, Dequeue));
      LoneConsumerKeeps(s, k, t, s');
      FetchedEnds(s', k, t, n - 1);
    } else if PcOf(s, t).DeqWait? {
      FetchedEnds(s, k, t, n);
    } else {
      ReleasedEnds(s, t, n);
    }
  }

  lemma WinningClaimEnds(s: State, k: nat, t: Tid, n: nat)
    requires LoneConsumer(s, k, t) && PcOf(s, t).DeqCas? && PcOf(s, t).head == s.ring.cHead && n >= 5
    ensures DequeueEnds(s, t, n)
  {
    var s' := Step(s, Move(t, Dequeue));
    LoneConsumerKeeps(s, k, t, s');
    ClaimedEnds(s', k, t, n - 1);
  }

  lemma FreshClaimEnds(s: State, k: nat, t: Tid, n: nat)
    requires LoneConsumer(s, k, t) && PcOf(s, t).DeqTail? && PcOf(s, t).head == s.ring.cHead && n >= 6
    ensures DequeueEnds(s, t, n)
  {
    var s' := Step(s, Move(t, Dequeue));
    if PcOf(s', t) != Idle {
      LoneConsumerKeeps(s, k, t, s');
      WinningClaimEnds(s', k, t, n - 1);
    }
  }

  lemma RereadClaimEnds(s: State, k: nat, t: Tid, n: nat)
    requires LoneConsumer(s, k, t) && PcOf(s, t) == DeqStart && n >= 7
    ensures DequeueEnds(s, t, n)
  {
    var s' := Step(s, Move(t, Dequeue));
    LoneConsumerKeeps(s, k, t, s');
    FreshClaimEnds(s', k, t, n - 1);
  }

  lemma ClaimSwapEnds(s: State, k: nat, t: Tid, n: nat)
    requires LoneConsumer(s, k, t) && PcOf(s, t).DeqCas? && n >= 8
    ensures DequeueEnds(s, t, n)
  {
    var s' := Step(s, Move(t, Dequeue));
    if s.ring.cHead == PcOf(s, t).head {
      WinningClaimEnds(s, k, t, n);
    } else {
      LoneConsumerKeeps(s, k, t, s');
      RereadClaimEnds(s', k, t, n - 1);
    }
  }

  lemma DequeueFinishes(s: State, k: nat, t: Tid)
    requires LoneConsumer(s, k, t) && InDequeue(PcOf(s, t))
    ensures DequeueEnds(s, t, 9)
  {
    var s' := Step(s, Move(t, Dequeue));
    if PcOf(s, t).DeqStart? {
      RereadClaimEnds(s, k, t, 9);
    } else if PcOf(s, t).DeqTail? {
      if PcOf(s', t) != Idle {
        LoneConsumerKeeps(s, k, t, s');
        ClaimSwapEnds(s', k, t, 8);
      }
    } else if PcOf(s, t).DeqCas? {
      ClaimSwapEnds(s, k, t, 9);
    } else {
      ClaimedEnds(s, k, t, 9);
    }
  }

  /** The loops make progress: from every state of every interleaving, wherever thread t stands in an
      operation, it returns within nine moves of its own if no other thread holds a position on that
      side and its head is less than 2^32 advances old. A swap that fails reads the head again. */
  lemma LoneThreadFinishes(k: nat, sched: seq<Move>, t: Tid, v: Node)
    requires k <= 13 && TimelyRun(k, sched)
    requires var x := Run(k, sched).aux; t in x.idx ==> x.ph - x.idx[t] < TWO32 && x.ch - x.idx[t] < TWO32
    ensures var s := Run(k, sched);
            InEnqueue(PcOf(s, t), v) && (forall u :: u != t ==> !Reserving(PcOf(s, u))) ==> EnqueueEnds(s, t, v, 9)
    ensures var s := Run(k, sched);
            InDequeue(PcOf(s, t)) && (forall u :: u != t ==> !Claiming(PcOf(s, u))) ==> DequeueEnds(s, t, 9)
  {
    var s := Run(k, sched);
    RunKeeps(k, sched);
    if InEnqueue(PcOf(s, t), v) && forall u :: u != t ==> !Reserving(PcOf(s, u)) {
      EnqueueFinishes(s, k, t, v);
    }
    if InDequeue(PcOf(s, t)) && forall u :: u != t ==> !Claiming(PcOf(s, u)) {
      DequeueFinishes(s, k, t);
    }
  }

  // ------------------------------------------------------------------ a schedule that breaks the order

  /** One more move of a timely schedule of the two-unit queue. */
  lemma Go(sched: seq<Move>, m: Move) returns (more: seq<Move>)
    requires TimelyRun(1, sched) && Timely(Run(1, sched), m.t)
    ensures TimelyRun(1, more) && Run(1, more) == Step(Run(1, sched), m)
  {
    more := sched + [m];
    assert more[..|more| - 1] == sched;
    assert TimelyAt(1, more, |more| - 1);
    LastStepToo(1, more);
  }

  /** Thread 0 holds the head it read at the very beginning and is about to swap; thread 1 stands
      at pc; p values were enqueued and c dequeued, apart from what thread 1 has under way. */
  ghost predicate Parked(s: State, ph: nat, pt: nat, ch: nat, ct: nat, pc: Pc) {
    var x, r := s.aux, s.ring;
    && Shaped(s) && r.mask == 1 && PcOf(s, 0) == EnqCas(2, 0) && PcOf(s, 1) == pc
    && x.ph == ph && x.pt == pt && x.ch == ch && x.ct == ct && |x.log| == ph && WordsAgree(s)
    && (pc.EnqTail? || pc.EnqCas? ==> 1 in x.idx && x.idx[1] == ph)
    && (pc.DeqTail? || pc.DeqCas? ==> 1 in x.idx && x.idx[1] == ch)
  }

  /** A move of thread 1 leaves thread 0 where it is. */
  lemma MoveOne(sched: seq<Move>, call: Call) returns (more: seq<Move>)
    requires TimelyRun(1, sched) && Timely(Run(1, sched), 1)
    ensures TimelyRun(1, more) && Run(1, more) == Step(Run(1, sched), Move(1, call))
    ensures PcOf(Run(1, more), 0) == PcOf(Run(1, sched), 0)
  {
    more := Go(sched, Move(1, call));
  }

  lemma ParkThreadZero() returns (sched: seq<Move>)
    ensures TimelyRun(1, sched) && Parked(Run(1, sched), 0, 0, 0, 0, Idle)
  {
    assert Pow2(1) == 2;
    sched := Go([], Move(0, Enqueue(2)));
    sched := Go(sched, Move(0, Enqueue(2)));
    sched := Go(sched, Move(0, Enqueue(2)));
  }

  lemma ReadHead(sched: seq<Move>, n: nat) returns (more: seq<Move>)
    requires TimelyRun(1, sched) && Parked(Run(1, sched), n, n, n, n, Idle)
    ensures TimelyRun(1, more) && Parked(Run(1, more), n, n, n, n, EnqTail(1, U32(n)))
  {
    more := MoveOne(sched, Enqueue(1));
    assert Parked(Run(1, more), n, n, n, n, EnqStart(1));
    more := MoveOne(more, Enqueue(1));
  }

  lemma SeesRoom(s: State, n: nat, s': State)
    requires Parked(s, n, n, n, n, EnqTail(1, U32(n))) && s' == Step(s, Move(1, Enqueue(1)))
    ensures Parked(s', n, n, n, n, EnqCas(1, U32(n)))
  {
    WordSub(1, n, n);
  }

  lemma SwapsHead(s: State, n: nat, s': State)
    requires Parked(s, n, n, n, n, EnqCas(1, U32(n))) && s' == Step(s, Move(1, Enqueue(1)))
    ensures Parked(s', n + 1, n, n, n, EnqWrite(1, U32(n)))
  {
    WordStep(n, 1);
  }

  lemma WinSwap(sched: seq<Move>, n: nat) returns (more: seq<Move>)
    requires TimelyRun(1, sched) && Parked(Run(1, sched), n, n, n, n, EnqTail(1, U32(n)))
    ensures TimelyRun(1, more) && Parked(Run(1, more), n + 1, n, n, n, EnqWrite(1, U32(n)))
  {
    var seen := MoveOne(sched, Enqueue(1));
    SeesRoom(Run(1, sched), n, Run(1, seen));
    more := MoveOne(seen, Enqueue(1));
    SwapsHead(Run(1, seen), n, Run(1, more));
  }

  lemma FillSlot(sched: seq<Move>, n: nat) returns (more: seq<Move>)
    requires TimelyRun(1, sched) && Parked(Run(1, sched), n + 1, n, n, n, EnqWrite(1, U32(n)))
    ensures TimelyRun(1, more) && Parked(Run(1, more), n + 1, n, n, n, EnqLoad(1, U32(n)))
  {
    more := MoveOne(sched, Enqueue(1));
    assert Parked(Run(1, more), n + 1, n, n, n, EnqWait(1, U32(n)));
    more := MoveOne(more, Enqueue(1));
  }

  lemma StoresTail(s: State, n: nat, s': State)
    requires Parked(s, n + 1, n, n, n, EnqStore(1, U32(n), U32(n))) && s' == Step(s, Move(1, Enqueue(1)))
    ensures Parked(s', n + 1, n + 1, n, n, Idle)
  {
    WordStep(n, 1);
  }

  lemma PublishSlot(sched: seq<Move>, n: nat) returns (more: seq<Move>)
    requires TimelyRun(1, sched) && Parked(Run(1, sched), n + 1, n, n, n, EnqLoad(1, U32(n)))
    ensures TimelyRun(1, more) && Parked(Run(1, more), n + 1, n + 1, n, n, Idle)
  {
    var loaded := MoveOne(sched, Enqueue(1));
    assert Parked(Run(1, loaded), n + 1, n, n, n, EnqStore(1, U32(n), U32(n)));
    more := MoveOne(loaded, Enqueue(1));
    StoresTail(Run(1, loaded), n, Run(1, more));
  }

  lemma ReadTail(sched: seq<Move>, n: nat) returns (more: seq<Move>)
    requires TimelyRun(1, sched) && Parked(Run(1, sched), n + 1, n + 1, n, n, Idle)
    ensures TimelyRun(1, more) && Parked(Run(1, more), n + 1, n + 1, n, n, DeqTail(U32(n)))
  {
    more := MoveOne(sched, Dequeue);
    assert Parked(Run(1, more), n + 1, n + 1, n, n, DeqStart);
    more := MoveOne(more, Dequeue);
  }

  lemma SeesValue(s: State, n: nat, s': State)
    requires Parked(s, n + 1, n + 1, n, n, DeqTail(U32(n))) && s' == Step(s, Move(1, Dequeue))
    ensures Parked(s', n + 1, n + 1, n, n, DeqCas(U32(n)))
  {
    WordDifference(0, n + 1, n);
  }

  lemma SwapsConsumerHead(s: State, n: nat, s': State)
    requires Parked(s, n + 1, n + 1, n, n, DeqCas(U32(n))) && s' == Step(s, Move(1, Dequeue))
    ensures Parked(s', n + 1, n + 1, n + 1, n, DeqRead(U32(n)))
  {
    WordStep(n, 1);
  }

  lemma WinClaim(sched: seq<Move>, n: nat) returns (more: seq<Move>)
    requires TimelyRun(1, sched) && Parked(Run(1, sched), n + 1, n + 1, n, n, DeqTail(U32(n)))
    ensures TimelyRun(1, more) && Parked(Run(1, more), n + 1, n + 1, n + 1, n, DeqRead(U32(n)))
  {
    var seen := MoveOne(sched, Dequeue);
    SeesValue(Run(1, sched), n, Run(1, seen));
    more := MoveOne(seen, Dequeue);
    SwapsConsumerHead(Run(1, seen), n, Run(1, more));
  }

  lemma FetchSlot(sched: seq<Move>, n: nat) returns (more: seq<Move>, v: Node)
    requires TimelyRun(1, sched) && Parked(Run(1, sched), n + 1, n + 1, n + 1, n, DeqRead(U32(n)))
    ensures TimelyRun(1, more) && Parked(Run(1, more), n + 1, n + 1, n + 1, n, DeqLoad(v, U32(n)))
  {
    more := MoveOne(sched, Dequeue);
    v := PcOf(Run(1, more), 1).v;
    assert Parked(Run(1, more), n + 1, n + 1, n + 1, n, DeqWait(v, U32(n)));
    more := MoveOne(more, Dequeue);
  }

  lemma StoresConsumerTail(s: State, n: nat, v: Node, s': State)
    requires Parked(s, n + 1, n + 1, n + 1, n, DeqStore(v, U32(n), U32(n))) && s' == Step(s, Move(1, Dequeue))
    ensures Parked(s', n + 1, n + 1, n + 1, n + 1, Idle)
  {
    WordStep(n, 1);
  }

  lemma ReleaseSlot(sched: seq<Move>, n: nat, v: Node) returns (more: seq<Move>)
    requires TimelyRun(1, sched) && Parked(Run(1, sched), n + 1, n + 1, n + 1, n, DeqLoad(v, U32(n)))
    ensures TimelyRun(1, more) && Parked(Run(1, more), n + 1, n + 1, n + 1, n + 1, Idle)
  {
    var loaded := MoveOne(sched, Dequeue);
    assert Parked(Run(1, loaded), n + 1, n + 1, n + 1, n, DeqStore(v, U32(n), U32(n)));
    more := MoveOne(loaded, Dequeue);
    StoresConsumerTail(Run(1, loaded), n, v, Run(1, more));
  }

  lemma EnqueueOnce(sched: seq<Move>, n: nat) returns (more: seq<Move>)
    requires TimelyRun(1, sched) && Parked(Run(1, sched), n, n, n, n, Idle)
    ensures TimelyRun(1, more) && Parked(Run(1, more), n + 1, n + 1, n, n, Idle)
  {
    more := ReadHead(sched, n);
    more := WinSwap(more, n);
    more := FillSlot(more, n);
    more := PublishSlot(more, n);
  }

  lemma DequeueOnce(sched: seq<Move>, n: nat) returns (more: seq<Move>)
    requires TimelyRun(1, sched) && Parked(Run(1, sched), n + 1, n + 1, n, n, Idle)
    ensures TimelyRun(1, more) && Parked(Run(1, more), n + 1, n + 1, n + 1, n + 1, Idle)
  {
    more := ReadTail(sched, n);
    more := WinClaim(more, n);
    var v: Node;
    more, v := FetchSlot(more, n);
    more := ReleaseSlot(more, n, v);
  }

  /** Thread 1 can enqueue and dequeue as often as it likes while thread 0 is parked. */
  lemma {:induction false} Rounds(n: nat) returns (sched: seq<Move>)
    ensures TimelyRun(1, sched) && Parked(Run(1, sched), n, n, n, n, Idle)
  {
    if n == 0 {
      sched := ParkThreadZero();
    } else {
      sched := Rounds(n - 1);
      sched := EnqueueOnce(sched, n - 1);
      sched := DequeueOnce(sched, n - 1);
    }
  }

  lemma SwapOfParked(s: State, n: nat)
    requires Parked(s, n + 1, n + 1, n, n, Idle) && (n + 1) % TWO32 == 0
    ensures !CountersOrdered(Step(s, Move(0, Dequeue)))
  {
  }

  /** The timing assumption cannot be dropped: a schedule of two threads exists in which every step
      is timely but the last one, a swap on a head that has come round to the same word again, and
      after it the ring is overfull. */
  lemma StaleSwapOverfills() returns (sched: seq<Move>)
    ensures TimelyRun(1, sched) && !CountersOrdered(Step(Run(1, sched), Move(0, Dequeue)))
  {
    var n: nat := TWO32 - 1;
    sched := Rounds(n);
    sched := EnqueueOnce(sched, n);
    SwapOfParked(Run(1, sched), n);
  }
}
