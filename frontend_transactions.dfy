/**
 * The frontend's transaction handles (app/transactions.js).
 *
 * A `Transaction` tracks one backend job: its progress, status and terminal
 * flags, an ordered list of observer callbacks, and the events emitted before
 * the first observer attached. A `Session` holds what the script keeps at module
 * level: the registry from id to handle, the orphan queue of events that arrived
 * for ids not yet registered, the set of ids flagged as orphaned, the task list
 * and the task-window capacity.
 *
 * Callbacks are outside code; calling one is modelled by appending a
 * `Delivery(slot, event)` to the handle's delivery log, where `slot` is the
 * callback's position in the observer list.
 */
module FrontendTransactions {
  import opened Wrappers

  /** Progress is held in hundredths of a percent, so FULL is 100%. */
  const FULL: int := 10000

  /** A callback passed to `listen`; only its identity matters here. */
  type Observer = nat

  /** A payload value (`data`), represented by its JSON text. */
  type Value = string

  /** The objects `emit` hands to the callbacks. */
  datatype Event =
    | ProgressEvent(progress: int)          // { progress }
    | CancelledEvent                        // { cancelled: true }
    | FinishedEvent(data: Value)            // { finished: true, data }
    | ErrorEvent(msg: string, data: Value)  // { error: msg, data }
    | StreamEvent(data: Value)              // { stream: true, data }
    | StatusEvent(msg: string)              // { msg }

  /** One call of the callback at position `slot` with `event`. */
  datatype Delivery = Delivery(slot: nat, event: Event)

  /** `n` callbacks, called in list order with the same event. */
  function FanOut(n: nat, e: Event): seq<Delivery>
  {
    if n == 0 then [] else FanOut(n - 1, e) + [Delivery(n - 1, e)]
  }

  /** The callback at `slot` called with each of `es`, in order. */
  function Replay(slot: nat, es: seq<Event>): seq<Delivery>
  {
    if es == [] then [] else Replay(slot, es[..|es| - 1]) + [Delivery(slot, es[|es| - 1])]
  }

  /** The events the callback at position `k` has been called with, in order. */
  function ReceivedBy(ds: seq<Delivery>, k: nat): seq<Event>
  {
    if ds == [] then []
    else ReceivedBy(ds[..|ds| - 1], k) + (if ds[|ds| - 1].slot == k then [ds[|ds| - 1].event] else [])
  }

  /**
   * The fields of a handle. `error` is the array `[msg, data]` that `error()`
   * stores under the name of the method itself (app/transactions.js:117).
   */
  datatype TxState = TxState(
    callbacks: seq<Observer>,
    progress: int,
    finished: bool,
    cancelled: bool,
    error: Option<(string, Value)>,
    status: Option<string>,
    unconsumed: seq<Event>,
    deliveries: seq<Delivery>)
  {
    /** `emit`: buffer the event while nobody listens, else call every callback in order. */
    function Emit(e: Event): TxState
    {
      if |callbacks| == 0 then this.(unconsumed := unconsumed + [e])
      else this.(deliveries := deliveries + FanOut(|callbacks|, e))
    }

    /** `listen`: append the callback; the first one is called with every buffered event. */
    function Listen(cb: Observer): TxState
    {
      if |callbacks| == 0 then this.(callbacks := [cb], deliveries := deliveries + Replay(0, unconsumed))
      else this.(callbacks := callbacks + [cb])
    }

    /** `setProgress`: emit and store only a value that differs from the current one. */
    function SetProgress(p: int): TxState
    {
      if p != progress then Emit(ProgressEvent(p)).(progress := p) else this
    }

    /** `setStatus`. */
    function SetStatus(msg: string): TxState
    {
      this.(status := Some(msg)).Emit(StatusEvent(msg))
    }

    /** `data`. */
    function Data(d: Value): TxState
    {
      Emit(StreamEvent(d))
    }

    /** `finish`, which has no guard: it runs on a finished or cancelled handle too. */
    function Finish(d: Value): TxState
    {
      var marked := this.(finished := true);
      var topped := if progress < FULL then marked.(progress := FULL).Emit(ProgressEvent(FULL)) else marked;
      topped.Emit(FinishedEvent(d))
    }

    /** Whether `error` is still a method: after one call the field shadows it and a call throws. */
    predicate ErrorCallable()
    {
      error.None?
    }

    /** `error`, on a handle whose `error` is still the method. */
    function Error(msg: string, d: Value): TxState
    {
      this.(error := Some((msg, d))).Emit(ErrorEvent(msg, d))
    }

    /** Whether `cancel` returns at once. */
    predicate Terminal()
    {
      cancelled || finished
    }

    /** `cancel`. */
    function Cancel(): TxState
    {
      if Terminal() then this else this.(cancelled := true).Emit(CancelledEvent)
    }
  }

  /** The fields a handle is constructed with (app/transactions.js:43-48). */
  const Initial: TxState := TxState([], 0, false, false, None, None, [], [])

  /** The payloads the backend sends, each carrying the transaction id first. */
  datatype Payload =
    | ProgressPayload(id: nat, progress: int)
    | CancelledPayload(id: nat)
    | FinishedPayload(id: nat, data: Value)
    | ErrorPayload(id: nat, msg: string, data: Value)
    | ProgressMsgPayload(id: nat, msg: string)
    | DataPayload(id: nat, data: Value)

  /** A handle's state and whether its id is still registered. */
  datatype Step = Step(state: TxState, registered: bool)

  /**
   * What the handler registered for a payload's kind does to the registered
   * handle (app/transactions.js:166-200). A call of `error` after the field has
   * shadowed the method throws a TypeError and changes nothing.
   */
  function Handle(st: TxState, p: Payload): Step
  {
    match p
    case ProgressPayload(_, v) => Step(if v != st.progress then st.SetProgress(v) else st, true)
    case CancelledPayload(_) => if st.Terminal() then Step(st, true) else Step(st.Cancel(), false)
    case FinishedPayload(_, d) => Step(st.Finish(d), false)
    case ErrorPayload(_, m, d) => if st.ErrorCallable() then Step(st.Error(m, d), false) else Step(st, true)
    case ProgressMsgPayload(_, m) => Step(st.SetStatus(m), true)
    case DataPayload(_, d) => Step(st.Data(d), true)
  }

  /** Apply a handler only while the id is registered; once it is not, the handler finds nothing. */
  function FireStep(s: Step, p: Payload): Step
  {
    if s.registered then Handle(s.state, p) else s
  }

  /** The handlers run over `ps` in order. */
  function ReplayAll(s: Step, ps: seq<Payload>): Step
  {
    if ps == [] then s else FireStep(ReplayAll(s, ps[..|ps| - 1]), ps[|ps| - 1])
  }

  /** The queued payloads for `id`, in arrival order. */
  function Matching(q: seq<Payload>, id: nat): seq<Payload>
  {
    if q == [] then []
    else Matching(q[..|q| - 1], id) + (if q[|q| - 1].id == id then [q[|q| - 1]] else [])
  }

  /** The queued payloads for other ids, in arrival order. */
  function Others(q: seq<Payload>, id: nat): seq<Payload>
  {
    if q == [] then []
    else Others(q[..|q| - 1], id) + (if q[|q| - 1].id != id then [q[|q| - 1]] else [])
  }

  /** Replaying one more payload is firing it after the others. */
  lemma ReplaySnoc(s: Step, ps: seq<Payload>, p: Payload)
    ensures ReplayAll(s, ps + [p]) == FireStep(ReplayAll(s, ps), p)
  {
    assert (ps + [p])[..|ps|] == ps;
  }

  /**
   * Where the scan in `checkOrphanQueue` stands after the first `k` payloads of
   * `q`: `queue` holds the kept ones followed by the unscanned ones, `i` points
   * just past the kept ones, and `cur` is `s0` with the matching ones replayed.
   */
  ghost predicate Scanned(q: seq<Payload>, x: nat, k: nat, queue: seq<Payload>, i: nat, s0: Step, cur: Step)
  {
    k <= |q| && queue == Others(q[..k], x) + q[k..] && i == |Others(q[..k], x)| &&
    cur == ReplayAll(s0, Matching(q[..k], x))
  }

  /**
   * One step of the scan: a payload for `x` is spliced out of the queue and
   * fired; any other is kept and the cursor moves past it.
   */
  lemma {:induction false} QueueStep(q: seq<Payload>, x: nat, k: nat, queue: seq<Payload>, i: nat, s0: Step, cur: Step)
    requires Scanned(q, x, k, queue, i, s0, cur) && k < |q|
    ensures i < |queue| && queue[i] == q[k]
    ensures q[k].id == x ==> Scanned(q, x, k + 1, queue[..i] + queue[i + 1..], i, s0, FireStep(cur, q[k]))
    ensures q[k].id != x ==> Scanned(q, x, k + 1, queue, i + 1, s0, cur)
  {
    var o := Others(q[..k], x);
    assert q[..k + 1][..k] == q[..k];
    assert queue[i] == q[k..][0];
    if q[k].id == x {
      assert Others(q[..k + 1], x) == o + [];
      assert queue[..i] == o && queue[i + 1..] == q[k + 1..];
      assert queue[..i] + queue[i + 1..] == Others(q[..k + 1], x) + q[k + 1..];
      assert Matching(q[..k + 1], x) == Matching(q[..k], x) + [q[k]];
      ReplaySnoc(s0, Matching(q[..k], x), q[k]);
    } else {
      assert Matching(q[..k + 1], x) == Matching(q[..k], x) + [];
      assert Matching(q[..k + 1], x) == Matching(q[..k], x);
      assert Others(q[..k + 1], x) == o + [q[k]];
      assert q[k..] == [q[k]] + q[k + 1..];
      assert queue == (o + [q[k]]) + q[k + 1..];
    }
  }

  /** The scan ends once the cursor reaches the end of the queue, with every payload scanned. */
  lemma ScanDone(q: seq<Payload>, x: nat, k: nat, queue: seq<Payload>, i: nat, s0: Step, cur: Step)
    requires Scanned(q, x, k, queue, i, s0, cur) && i >= |queue|
    ensures queue == Others(q, x) && cur == ReplayAll(s0, Matching(q, x))
  {
    assert q[..k] == q;
  }

  /** The ids that have a payload in the queue. */
  function OrphanIds(q: seq<Payload>): set<nat>
  {
    set p | p in q :: p.id
  }

  const TASK_HEIGHT: nat := 49
  const TASKS_1080P: nat := 4

  /**
   * `resize`: Math.max(Math.round(outerHeight * ratio / taskHeight), 2) with
   * ratio = taskHeight * tasks1080p / 1027, so the rounded quantity is
   * 4 * outerHeight / 1027, and Math.round(x) = floor(x + 1/2).
   */
  function TasksMax(outerHeight: nat): (r: nat)
    ensures r >= 2
    ensures r > 2 ==> 1027 * (2 * r - 1) <= 8 * outerHeight < 1027 * (2 * r + 1)
    ensures r == 2 <==> 8 * outerHeight < 1027 * 5
  {
    var rounded := (2 * TASKS_1080P * outerHeight + 1027) / 2054;
    if rounded < 2 then 2 else rounded
  }

  /** Registering a handle and then deleting its id leaves the registry as deleting alone would. */
  lemma UpdateThenRemove<K, V>(m: map<K, V>, k: K, v: V)
    ensures m[k := v] - {k} == m - {k}
  {
  }

  // ---------------------------------------------------------------------------
  // Lemmas about the delivery log

  lemma {:induction false} ReceivedAppend(a: seq<Delivery>, b: seq<Delivery>, k: nat)
    ensures ReceivedBy(a + b, k) == ReceivedBy(a, k) + ReceivedBy(b, k)
  {
    if b == [] {
      assert a + b == a;
    } else {
      ReceivedAppend(a, b[..|b| - 1], k);
      assert (a + b)[..|a + b| - 1] == a + b[..|b| - 1];
      assert (a + b)[|a + b| - 1] == b[|b| - 1];
    }
  }

  /** Every one of `n` callbacks gets the event exactly once; nobody else gets it. */
  lemma {:induction false} ReceivedFanOut(n: nat, e: Event, k: nat)
    ensures ReceivedBy(FanOut(n, e), k) == if k < n then [e] else []
  {
    if n > 0 {
      ReceivedFanOut(n - 1, e, k);
      var f := FanOut(n, e);
      assert f[..|f| - 1] == FanOut(n - 1, e);
    }
  }

  /** Replaying to one slot hands that slot the events in order, and no other slot anything. */
  lemma {:induction false} ReceivedReplay(slot: nat, es: seq<Event>, k: nat)
    ensures ReceivedBy(Replay(slot, es), k) == if k == slot then es else []
  {
    if es != [] {
      ReceivedReplay(slot, es[..|es| - 1], k);
      var r := Replay(slot, es);
      assert r[..|r| - 1] == Replay(slot, es[..|es| - 1]);
      assert es == es[..|es| - 1] + [es[|es| - 1]];
    }
  }

  /** A callback position no delivery names has received nothing. */
  lemma {:induction false} ReceivedNothing(ds: seq<Delivery>, k: nat)
    requires forall i :: 0 <= i < |ds| ==> ds[i].slot < k
    ensures ReceivedBy(ds, k) == []
  {
    if ds != [] {
      ReceivedNothing(ds[..|ds| - 1], k);
    }
  }

  /**
   * `emit` with no callbacks buffers the event and calls nobody; otherwise every
   * callback receives it once, after what it had received, and nothing is buffered.
   */
  lemma EmitDelivers(st: TxState, e: Event)
    ensures |st.callbacks| == 0 ==>
      st.Emit(e).unconsumed == st.unconsumed + [e] && st.Emit(e).deliveries == st.deliveries
    ensures |st.callbacks| > 0 ==> st.Emit(e).unconsumed == st.unconsumed
    ensures forall k :: 0 <= k < |st.callbacks| ==>
      ReceivedBy(st.Emit(e).deliveries, k) == ReceivedBy(st.deliveries, k) + [e]
    ensures forall k :: k >= |st.callbacks| ==>
      ReceivedBy(st.Emit(e).deliveries, k) == ReceivedBy(st.deliveries, k)
  {
    var n := |st.callbacks|;
    forall k: nat
      ensures ReceivedBy(st.Emit(e).deliveries, k) == ReceivedBy(st.deliveries, k) + (if k < n then [e] else [])
    {
      if n > 0 {
        ReceivedAppend(st.deliveries, FanOut(n, e), k);
        ReceivedFanOut(n, e, k);
      }
    }
  }

  /** The first `listen` calls the new callback with every buffered event, in order. */
  lemma FirstListenReplays(st: TxState, cb: Observer)
    requires |st.callbacks| == 0
    ensures st.Listen(cb).callbacks == [cb]
    ensures ReceivedBy(st.Listen(cb).deliveries, 0) == ReceivedBy(st.deliveries, 0) + st.unconsumed
  {
    ReceivedAppend(st.deliveries, Replay(0, st.unconsumed), 0);
    ReceivedReplay(0, st.unconsumed, 0);
  }

  /** A later `listen` only appends the callback: it is called with no earlier event. */
  lemma LaterListenGetsNoHistory(st: TxState, cb: Observer)
    requires |st.callbacks| > 0
    requires forall i :: 0 <= i < |st.deliveries| ==> st.deliveries[i].slot < |st.callbacks|
    ensures st.Listen(cb).callbacks == st.callbacks + [cb]
    ensures ReceivedBy(st.Listen(cb).deliveries, |st.callbacks|) == []
  {
    ReceivedNothing(st.deliveries, |st.callbacks|);
  }

  // ---------------------------------------------------------------------------
  // What every observer sees over a run of emits and listens

  datatype Op = EmitOp(e: Event) | ListenOp(cb: Observer)

  /** The handle after `ops`, starting from a new handle. */
  function Run(ops: seq<Op>): TxState
  {
    if ops == [] then Initial
    else
      var st := Run(ops[..|ops| - 1]);
      match ops[|ops| - 1]
      case EmitOp(e) => st.Emit(e)
      case ListenOp(cb) => st.Listen(cb)
  }

  /** The events emitted by `ops`, in order. */
  function Emitted(ops: seq<Op>): seq<Event>
  {
    if ops == [] then []
    else Emitted(ops[..|ops| - 1]) + (if ops[|ops| - 1].EmitOp? then [ops[|ops| - 1].e] else [])
  }

  /** The number of `listen` calls in `ops`. */
  function Listens(ops: seq<Op>): nat
  {
    if ops == [] then 0
    else Listens(ops[..|ops| - 1]) + (if ops[|ops| - 1].ListenOp? then 1 else 0)
  }

  /**
   * From which emitted event on the `k`-th callback hears: the first callback
   * from the very first one (it gets the buffer), a later one from those emitted
   * after it attached.
   */
  function AttachPoint(ops: seq<Op>, k: nat): nat
  {
    if ops == [] || k == 0 then 0
    else if ops[|ops| - 1].ListenOp? && Listens(ops[..|ops| - 1]) == k then |Emitted(ops[..|ops| - 1])|
    else AttachPoint(ops[..|ops| - 1], k)
  }

  /** What the run theorem states, as one predicate for its induction steps. */
  ghost predicate SeenSinceAttach(ops: seq<Op>)
  {
    |Run(ops).callbacks| == Listens(ops) &&
    (Listens(ops) == 0 ==> Run(ops).unconsumed == Emitted(ops) && Run(ops).deliveries == []) &&
    (forall i :: 0 <= i < |Run(ops).deliveries| ==> Run(ops).deliveries[i].slot < Listens(ops)) &&
    (forall k :: 0 <= k < Listens(ops) ==>
      AttachPoint(ops, k) <= |Emitted(ops)| &&
      ReceivedBy(Run(ops).deliveries, k) == Emitted(ops)[AttachPoint(ops, k)..])
  }

  lemma EmitKeepsSeen(pre: seq<Op>, e: Event)
    requires SeenSinceAttach(pre)
    ensures SeenSinceAttach(pre + [EmitOp(e)])
  {
    var ops := pre + [EmitOp(e)];
    assert ops[..|ops| - 1] == pre;
    var st := Run(pre);
    var n := Listens(pre);
    var em := Emitted(pre);
    EmitDelivers(st, e);
    FanOutSlots(n, e);
    assert Run(ops) == st.Emit(e);
    assert Emitted(ops) == em + [e];
    assert Listens(ops) == n;
    forall k | 0 <= k < n
      ensures AttachPoint(ops, k) <= |Emitted(ops)| &&
        ReceivedBy(Run(ops).deliveries, k) == Emitted(ops)[AttachPoint(ops, k)..]
    {
      assert AttachPoint(ops, k) == AttachPoint(pre, k);
      assert (em + [e])[AttachPoint(pre, k)..] == em[AttachPoint(pre, k)..] + [e];
    }
  }

  lemma ListenKeepsSeen(pre: seq<Op>, cb: Observer)
    requires SeenSinceAttach(pre)
    ensures SeenSinceAttach(pre + [ListenOp(cb)])
  {
    var ops := pre + [ListenOp(cb)];
    assert ops[..|ops| - 1] == pre;
    assert Run(ops) == Run(pre).Listen(cb);
    assert Emitted(ops) == Emitted(pre);
    assert Listens(ops) == Listens(pre) + 1;
    if Listens(pre) == 0 {
      FirstListenKeepsSeen(pre, cb, ops);
    } else {
      LaterListenKeepsSeen(pre, cb, ops);
    }
  }

  /** The first listener hears the whole buffer, from the first emitted event on. */
  lemma FirstListenKeepsSeen(pre: seq<Op>, cb: Observer, ops: seq<Op>)
    requires SeenSinceAttach(pre) && Listens(pre) == 0 && ops == pre + [ListenOp(cb)]
    requires ops[..|ops| - 1] == pre && Run(ops) == Run(pre).Listen(cb)
    requires Emitted(ops) == Emitted(pre) && Listens(ops) == 1
    ensures SeenSinceAttach(ops)
  {
    var em := Emitted(pre);
    assert Run(pre).unconsumed == em && Run(pre).deliveries == [];
    assert Run(ops).deliveries == Replay(0, em) by {
      assert [] + Replay(0, em) == Replay(0, em);
    }
    assert |Run(ops).callbacks| == 1;
    ReplaySlots(0, em);
    assert ReceivedBy(Run(ops).deliveries, 0) == em[0..] by {
      ReceivedReplay(0, em, 0);
    }
    assert AttachPoint(ops, 0) == 0;
  }

  /** A later listener hears nothing yet; the earlier ones keep their attach points. */
  lemma LaterListenKeepsSeen(pre: seq<Op>, cb: Observer, ops: seq<Op>)
    requires SeenSinceAttach(pre) && Listens(pre) > 0 && ops == pre + [ListenOp(cb)]
    requires ops[..|ops| - 1] == pre && Run(ops) == Run(pre).Listen(cb)
    requires Emitted(ops) == Emitted(pre) && Listens(ops) == Listens(pre) + 1
    ensures SeenSinceAttach(ops)
  {
    var n := Listens(pre);
    LaterListenGetsNoHistory(Run(pre), cb);
    forall k | 0 <= k < n + 1
      ensures AttachPoint(ops, k) <= |Emitted(ops)| &&
        ReceivedBy(Run(ops).deliveries, k) == Emitted(ops)[AttachPoint(ops, k)..]
    {
      if k == n {
        assert AttachPoint(ops, k) == |Emitted(pre)|;
      } else {
        assert AttachPoint(ops, k) == AttachPoint(pre, k);
      }
    }
  }

  /**
   * Over any run, the callback at position k has received exactly the events
   * emitted from its attach point on, in emission order, each once; before the
   * first listen the buffer holds every emitted event.
   */
  lemma {:induction false} ObserversSeeEventsSinceAttach(ops: seq<Op>)
    ensures |Run(ops).callbacks| == Listens(ops)
    ensures Listens(ops) == 0 ==> Run(ops).unconsumed == Emitted(ops) && Run(ops).deliveries == []
    ensures forall i :: 0 <= i < |Run(ops).deliveries| ==> Run(ops).deliveries[i].slot < Listens(ops)
    ensures forall k :: 0 <= k < Listens(ops) ==>
      AttachPoint(ops, k) <= |Emitted(ops)| &&
      ReceivedBy(Run(ops).deliveries, k) == Emitted(ops)[AttachPoint(ops, k)..]
  {
    if ops != [] {
      var pre := ops[..|ops| - 1];
      ObserversSeeEventsSinceAttach(pre);
      assert ops == pre + [ops[|ops| - 1]];
      match ops[|ops| - 1]
      case EmitOp(e) => EmitKeepsSeen(pre, e);
      case ListenOp(cb) => ListenKeepsSeen(pre, cb);
    }
  }

  lemma {:induction false} ReplaySlots(slot: nat, es: seq<Event>)
    ensures |Replay(slot, es)| == |es|
    ensures forall i :: 0 <= i < |Replay(slot, es)| ==> Replay(slot, es)[i].slot == slot
  {
    if es != [] {
      ReplaySlots(slot, es[..|es| - 1]);
    }
  }

  lemma {:induction false} FanOutSlots(n: nat, e: Event)
    ensures forall i :: 0 <= i < |FanOut(n, e)| ==> FanOut(n, e)[i].slot < n
  {
    if n > 0 {
      FanOutSlots(n - 1, e);
    }
  }

  // ---------------------------------------------------------------------------
  // Lemmas about the transitions

  /**
   * `cancel` on a cancelled or finished handle changes nothing; otherwise it
   * sets `cancelled`, keeps `finished` false, and emits one CancelledEvent.
   */
  lemma CancelOnce(st: TxState)
    ensures st.Terminal() ==> st.Cancel() == st
    ensures !st.Terminal() ==>
      st.Cancel().cancelled && !st.Cancel().finished && st.Cancel() == st.(cancelled := true).Emit(CancelledEvent)
    ensures st.Cancel().Cancel() == st.Cancel()
  {
  }

  /**
   * `finish` below 100% emits progress 100% and then the finished event, to the
   * buffer or to every callback; at 100% or more it emits only the finished event.
   */
  lemma FinishEmitsFullProgressFirst(st: TxState, d: Value)
    ensures st.Finish(d).finished && st.Finish(d).progress == (if st.progress < FULL then FULL else st.progress)
    ensures |st.callbacks| == 0 ==>
      st.Finish(d).unconsumed ==
        st.unconsumed + (if st.progress < FULL then [ProgressEvent(FULL)] else []) + [FinishedEvent(d)]
    ensures forall k :: 0 <= k < |st.callbacks| ==>
      ReceivedBy(st.Finish(d).deliveries, k) ==
        ReceivedBy(st.deliveries, k) + (if st.progress < FULL then [ProgressEvent(FULL)] else []) + [FinishedEvent(d)]
  {
    var marked := st.(finished := true);
    var topped := if st.progress < FULL then marked.(progress := FULL).Emit(ProgressEvent(FULL)) else marked;
    if st.progress < FULL {
      EmitDelivers(marked.(progress := FULL), ProgressEvent(FULL));
    }
    EmitDelivers(topped, FinishedEvent(d));
  }

  /** `finish` has no terminal guard: on a cancelled handle it still emits a finished event. */
  lemma FinishAfterCancelStillEmits(st: TxState, d: Value)
    requires |st.callbacks| == 0 && !st.Terminal()
    ensures st.Cancel().Finish(d).cancelled && st.Cancel().Finish(d).finished
    ensures st.Cancel().Finish(d).unconsumed[|st.Cancel().Finish(d).unconsumed| - 1] == FinishedEvent(d)
  {
  }

  /**
   * `setProgress` emits exactly when the value changes, and accepts a value
   * lower than the current one: progress is not monotonic.
   */
  lemma SetProgressOnChange(st: TxState, p: int)
    ensures p == st.progress ==> st.SetProgress(p) == st
    ensures p != st.progress ==> st.SetProgress(p).progress == p && st.SetProgress(p) == st.Emit(ProgressEvent(p)).(progress := p)
    ensures p < st.progress ==> st.SetProgress(p).progress < st.progress
  {
  }

  /** The only handlers that deregister are finish, error and a cancel that was not a no-op. */
  lemma HandleDeregisters(st: TxState, p: Payload)
    ensures !Handle(st, p).registered <==>
      p.FinishedPayload? || (p.ErrorPayload? && st.ErrorCallable()) || (p.CancelledPayload? && !st.Terminal())
  {
  }

  // ---------------------------------------------------------------------------
  // Lemmas about the orphan queue and replay

  /** Once the id is deregistered, later payloads for it change nothing. */
  lemma {:induction false} ReplayAfterDeregistered(s: Step, ps: seq<Payload>)
    requires !s.registered
    ensures ReplayAll(s, ps) == s
  {
    if ps != [] {
      ReplayAfterDeregistered(s, ps[..|ps| - 1]);
    }
  }

  /**
   * Replaying queued payloads and then handling live ones gives what handling
   * all of them in arrival order gives: events that arrived before the handle
   * existed are neither lost nor reordered.
   */
  lemma {:induction false} ReplayAllAppend(s: Step, a: seq<Payload>, b: seq<Payload>)
    ensures ReplayAll(s, a + b) == ReplayAll(ReplayAll(s, a), b)
  {
    if b == [] {
      assert a + b == a;
    } else {
      ReplayAllAppend(s, a, b[..|b| - 1]);
      assert (a + b)[..|a + b| - 1] == a + b[..|b| - 1];
    }
  }

  /** The queue splits into the payloads for `id` and the rest, with nothing lost. */
  lemma {:induction false} QueuePartition(q: seq<Payload>, id: nat)
    ensures multiset(Matching(q, id)) + multiset(Others(q, id)) == multiset(q)
  {
    if q != [] {
      var pre := q[..|q| - 1];
      var last := q[|q| - 1];
      QueuePartition(pre, id);
      assert multiset(q) == multiset(pre) + multiset{last} by {
        assert q == pre + [last];
      }
      if last.id == id {
        assert Matching(q, id) == Matching(pre, id) + [last];
        assert Others(q, id) == Others(pre, id) + [];
      } else {
        assert Matching(q, id) == Matching(pre, id) + [];
        assert Others(q, id) == Others(pre, id) + [last];
      }
    }
  }

  /** Every payload the split puts on the `id` side is for `id`, and none on the other side is. */
  lemma {:induction false} QueuePartitionIds(q: seq<Payload>, id: nat)
    ensures forall i :: 0 <= i < |Matching(q, id)| ==> Matching(q, id)[i].id == id
    ensures forall i :: 0 <= i < |Others(q, id)| ==> Others(q, id)[i].id != id
  {
    if q != [] {
      QueuePartitionIds(q[..|q| - 1], id);
    }
  }

  lemma OrphanIdsAppend(a: seq<Payload>, b: seq<Payload>)
    ensures OrphanIds(a + b) == OrphanIds(a) + OrphanIds(b)
  {
    forall x | x in OrphanIds(a + b)
      ensures x in OrphanIds(a) + OrphanIds(b)
    {
      var p :| p in a + b && p.id == x;
    }
    forall x | x in OrphanIds(a) + OrphanIds(b)
      ensures x in OrphanIds(a + b)
    {
      var p :| (p in a || p in b) && p.id == x;
      assert p in a + b;
    }
  }

  lemma {:induction false} OthersIds(q: seq<Payload>, id: nat)
    ensures OrphanIds(Others(q, id)) == OrphanIds(q) - {id}
  {
    if q != [] {
      var pre := q[..|q| - 1];
      var last := q[|q| - 1];
      OthersIds(pre, id);
      assert q == pre + [last];
      OrphanIdsAppend(pre, [last]);
      assert OrphanIds([last]) == {last.id};
      var tail := if last.id != id then [last] else [];
      OrphanIdsAppend(Others(pre, id), tail);
      assert OrphanIds(tail) == if last.id != id then {last.id} else {};
    }
  }

  lemma {:induction false} NoMatching(q: seq<Payload>, id: nat)
    requires id !in OrphanIds(q)
    ensures Matching(q, id) == [] && Others(q, id) == q
  {
    if q != [] {
      var pre := q[..|q| - 1];
      assert q == pre + [q[|q| - 1]];
      assert OrphanIds(pre) <= OrphanIds(q);
      NoMatching(pre, id);
    }
  }

  // ---------------------------------------------------------------------------
  // The imperative shell

  class Transaction {
    const id: nat
    var callbacks: seq<Observer>
    var progress: int
    var finished: bool
    var cancelled: bool
    var error: Option<(string, Value)>
    var status: Option<string>
    var unconsumedEvents: seq<Event>
    var deliveries: seq<Delivery>

    function State(): TxState
      reads this
    {
      TxState(callbacks, progress, finished, cancelled, error, status, unconsumedEvents, deliveries)
    }

    /** The field initialisation of the constructor (app/transactions.js:43-48). */
    constructor (id: nat)
      ensures this.id == id && State() == Initial
    {
      this.id := id;
      callbacks := [];
      progress := 0;
      finished := false;
      cancelled := false;
      error := None;
      status := None;
      unconsumedEvents := [];
      deliveries := [];
    }

    method Emit(e: Event)
      modifies this
      ensures State() == old(State()).Emit(e)
    {
      if |callbacks| == 0 {
        unconsumedEvents := unconsumedEvents + [e];
      } else {
        var i := 0;
        while i < |callbacks|
          invariant 0 <= i <= |callbacks|
          invariant deliveries == old(deliveries) + FanOut(i, e)
          invariant State() == old(State()).(deliveries := deliveries)
        {
          deliveries := deliveries + [Delivery(i, e)];
          i := i + 1;
        }
      }
    }

    method Listen(cb: Observer)
      modifies this
      ensures State() == old(State()).Listen(cb)
    {
      callbacks := callbacks + [cb];
      if |callbacks| == 1 {
        var i := 0;
        while i < |unconsumedEvents|
          invariant 0 <= i <= |unconsumedEvents|
          invariant deliveries == old(deliveries) + Replay(0, unconsumedEvents[..i])
          invariant State() == old(State()).(callbacks := [cb], deliveries := deliveries)
        {
          assert unconsumedEvents[..i + 1][..i] == unconsumedEvents[..i];
          deliveries := deliveries + [Delivery(0, unconsumedEvents[i])];
          i := i + 1;
        }
        assert unconsumedEvents[..i] == unconsumedEvents;
      }
    }

    /** `cancel(fromBackend)`: deregisters, and asks the backend to cancel unless it came from there. */
    method Cancel(s: Session, fromBackend: bool)
      modifies this, s`transactions, s`cancelRequests
      ensures State() == old(State()).Cancel()
      ensures old(State()).Terminal() ==>
        s.transactions == old(s.transactions) && s.cancelRequests == old(s.cancelRequests)
      ensures !old(State()).Terminal() ==>
        s.transactions == old(s.transactions) - {id} &&
        s.cancelRequests == old(s.cancelRequests) + (if fromBackend then [] else [id])
    {
      if cancelled || finished {
        return;
      }
      cancelled := true;
      Emit(CancelledEvent);
      s.transactions := s.transactions - {id};
      if !fromBackend {
        s.cancelRequests := s.cancelRequests + [id];
      }
    }

    method Finish(s: Session, d: Value)
      modifies this, s`transactions
      ensures State() == old(State()).Finish(d)
      ensures s.transactions == old(s.transactions) - {id}
    {
      finished := true;
      if progress < FULL {
        progress := FULL;
        Emit(ProgressEvent(FULL));
      }
      Emit(FinishedEvent(d));
      s.transactions := s.transactions - {id};
    }

    /** `error`; `threw` is the TypeError of calling it once the field has shadowed the method. */
    method Error(s: Session, msg: string, d: Value) returns (threw: bool)
      modifies this, s`transactions
      ensures threw == !old(State()).ErrorCallable()
      ensures threw ==> State() == old(State()) && s.transactions == old(s.transactions)
      ensures !threw ==> State() == old(State()).Error(msg, d) && s.transactions == old(s.transactions) - {id}
    {
      if error.Some? {
        return true;
      }
      error := Some((msg, d));
      Emit(ErrorEvent(msg, d));
      s.transactions := s.transactions - {id};
      return false;
    }

    method Data(d: Value)
      modifies this
      ensures State() == old(State()).Data(d)
    {
      Emit(StreamEvent(d));
    }

    method SetStatus(msg: string)
      modifies this
      ensures State() == old(State()).SetStatus(msg)
    {
      status := Some(msg);
      Emit(StatusEvent(msg));
    }

    method SetProgress(p: int)
      modifies this
      ensures State() == old(State()).SetProgress(p)
    {
      if p != progress {
        Emit(ProgressEvent(p));
        progress := p;
      }
    }
  }

  class Session {
    var transactions: map<nat, Transaction>
    var orphanQueue: seq<Payload>
    var orphaned: set<nat>
    var tasks: seq<Transaction>
    var cancelRequests: seq<nat>
    var tasksMax: nat

    /** Every registered handle sits under its own id. */
    ghost predicate RegistryConsistent()
      reads this
    {
      forall k :: k in transactions ==> transactions[k].id == k
    }

    /** ... and an id is flagged as orphaned exactly when it has a queued payload. */
    ghost predicate Valid()
      reads this
    {
      RegistryConsistent() && orphaned == OrphanIds(orphanQueue)
    }

    /** The module's initial state, with `resize()` run once at load. */
    constructor (outerHeight: nat)
      ensures Valid()
      ensures transactions == map[] && orphanQueue == [] && tasks == [] && cancelRequests == []
      ensures tasksMax == TasksMax(outerHeight)
    {
      transactions := map[];
      orphanQueue := [];
      orphaned := {};
      tasks := [];
      cancelRequests := [];
      tasksMax := TasksMax(outerHeight);
    }

    /** The handle a payload for `id` would reach. */
    function Target(id: nat): set<object>
      reads this
    {
      if id in transactions then {transactions[id]} else {}
    }

    /** `Transaction.get`. */
    function Get(id: nat): (r: Option<Transaction>)
      reads this
      ensures r.Some? <==> id in transactions
    {
      if id in transactions then Some(transactions[id]) else None
    }

    /** The `resize` listener. */
    method Resize(outerHeight: nat)
      modifies this`tasksMax
      ensures tasksMax == TasksMax(outerHeight)
    {
      tasksMax := TasksMax(outerHeight);
    }

    /** `fireTransactionEvent`: run the handler for the payload's kind. */
    method Fire(p: Payload)
      requires RegistryConsistent()
      modifies this`transactions, this`cancelRequests, Target(p.id)
      ensures RegistryConsistent() && cancelRequests == old(cancelRequests)
      ensures p.id !in old(transactions) ==> transactions == old(transactions)
      ensures p.id in old(transactions) ==>
        var t := old(transactions[p.id]);
        var step := Handle(old(t.State()), p);
        t.State() == step.state &&
        transactions == if step.registered then old(transactions) else old(transactions) - {p.id}
    {
      if p.id in transactions {
        var t := transactions[p.id];
        match p
        case ProgressPayload(_, v) =>
          if v != t.progress {
            t.SetProgress(v);
          }
        case CancelledPayload(_) =>
          t.Cancel(this, true);
        case FinishedPayload(_, d) =>
          t.Finish(this, d);
        case ErrorPayload(_, m, d) =>
          var _ := t.Error(this, m, d);
        case ProgressMsgPayload(_, m) =>
          t.SetStatus(m);
        case DataPayload(_, d) =>
          t.Data(d);
      }
    }

    /**
     * The listener `transactionEvent` installs: handle the payload if its id is
     * registered, otherwise flag the id and queue the payload.
     */
    method Dispatch(p: Payload)
      requires Valid()
      modifies this, Target(p.id)
      ensures Valid()
      ensures tasks == old(tasks) && cancelRequests == old(cancelRequests) && tasksMax == old(tasksMax)
      ensures p.id !in old(transactions) ==>
        orphanQueue == old(orphanQueue) + [p] && orphaned == old(orphaned) + {p.id} &&
        transactions == old(transactions)
      ensures p.id in old(transactions) ==>
        var t := old(transactions[p.id]);
        var step := Handle(old(t.State()), p);
        orphanQueue == old(orphanQueue) && t.State() == step.state &&
        transactions == if step.registered then old(transactions) else old(transactions) - {p.id}
    {
      if p.id in transactions {
        Fire(p);
      } else {
        orphaned := orphaned + {p.id};
        orphanQueue := orphanQueue + [p];
      }
    }

    /**
     * `checkOrphanQueue(id)`: take every queued payload for `id` out of the
     * queue, in order, and run its handler; the other payloads stay, in order.
     */
    method CheckOrphanQueue(x: nat, t: Transaction)
      requires RegistryConsistent() && x in transactions && transactions[x] == t
      modifies this`orphanQueue, this`transactions, this`cancelRequests, t
      ensures RegistryConsistent() && cancelRequests == old(cancelRequests)
      ensures orphanQueue == Others(old(orphanQueue), x)
      ensures var step := ReplayAll(Step(old(t.State()), true), Matching(old(orphanQueue), x));
        t.State() == step.state &&
        transactions == if step.registered then old(transactions) else old(transactions) - {x}
    {
      ghost var q0 := orphanQueue;
      ghost var s0 := Step(t.State(), true);
      ghost var k := 0;
      ghost var cur := s0;
      var i := 0;
      while i < |orphanQueue|
        invariant Scanned(q0, x, k, orphanQueue, i, s0, cur)
        invariant RegistryConsistent() && cancelRequests == old(cancelRequests)
        invariant t.State() == cur.state
        invariant transactions == if cur.registered then old(transactions) else old(transactions) - {x}
        decreases |q0| - k
      {
        QueueStep(q0, x, k, orphanQueue, i, s0, cur);
        var orphan := orphanQueue[i];
        if orphan.id == x {
          orphanQueue := orphanQueue[..i] + orphanQueue[i + 1..];
          FireQueued(x, t, orphan, cur, old(transactions));
          cur := FireStep(cur, orphan);
        } else {
          i := i + 1;
        }
        k := k + 1;
      }
      ScanDone(q0, x, k, orphanQueue, i, s0, cur);
    }

    /** One queued payload for `x` fired at `t`, the handle registered under `x` when the replay began. */
    method FireQueued(x: nat, t: Transaction, p: Payload, ghost before: Step, ghost start: map<nat, Transaction>)
      requires RegistryConsistent() && p.id == x && x in start && start[x] == t
      requires t.State() == before.state
      requires transactions == if before.registered then start else start - {x}
      modifies this`transactions, this`cancelRequests, t
      ensures RegistryConsistent() && cancelRequests == old(cancelRequests)
      ensures var after := FireStep(before, p);
        t.State() == after.state &&
        transactions == if after.registered then start else start - {x}
    {
      Fire(p);
    }

    /** A new handle registered under `x`, replacing any there, and listed as a task when asked. */
    method Register(x: nat, hasStatusTextFn: bool) returns (t: Transaction)
      requires RegistryConsistent()
      modifies this`transactions, this`tasks
      ensures RegistryConsistent()
      ensures fresh(t) && t.id == x && t.State() == Initial
      ensures transactions == old(transactions)[x := t]
      ensures tasks == old(tasks) + (if hasStatusTextFn then [t] else [])
    {
      t := new Transaction(x);
      transactions := transactions[x := t];
      if hasStatusTextFn {
        tasks := tasks + [t];
      }
    }

    /**
     * `new Transaction(id, TASK_statusTextFn)`: nothing for a null or undefined
     * id; otherwise register a new handle under `id` (replacing any handle
     * already there), list it as a task when a status-text function is given,
     * and, if the id was flagged as orphaned, clear the flag and replay its
     * queued payloads.
     */
    method Construct(id: Option<nat>, hasStatusTextFn: bool) returns (t: Transaction?)
      requires Valid()
      modifies this
      ensures Valid()
      ensures cancelRequests == old(cancelRequests) && tasksMax == old(tasksMax)
      ensures id.None? ==>
        t == null && transactions == old(transactions) && orphanQueue == old(orphanQueue) && tasks == old(tasks)
      ensures id.Some? ==>
        var x := id.value;
        var step := ReplayAll(Step(Initial, true), Matching(old(orphanQueue), x));
        t != null && fresh(t) && t.id == x && t.State() == step.state &&
        orphanQueue == Others(old(orphanQueue), x) &&
        tasks == old(tasks) + (if hasStatusTextFn then [t] else []) &&
        transactions == if step.registered then old(transactions)[x := t] else old(transactions) - {x}
    {
      if id.None? {
        return null;
      }
      var x := id.value;
      t := Register(x, hasStatusTextFn);
      if x in orphaned {
        orphaned := orphaned - {x};
        CheckOrphanQueue(x, t);
        OthersIds(old(orphanQueue), x);
        UpdateThenRemove(old(transactions), x, t);
      } else {
        NoMatching(orphanQueue, x);
      }
    }
  }
}
