/**
 * In-process change listeners: records queue up behind committed writes and a later turn of the
 * event loop delivers them. Listeners may write, subscribe, unsubscribe and close from inside.
 */
module Dispatcher {
  import opened Prelude

  datatype ChangeOp = SetOp | DeleteOp | FlushOp

  function OpOf(name: string): Option<ChangeOp> {
    if name == "set" then Some(SetOp) else if name == "delete" then Some(DeleteOp)
    else if name == "flush" then Some(FlushOp) else None
  }

  /** A listener must name at least one kind of change, and only known ones. */
  predicate AreOps(names: seq<string>) {
    names != [] && forall i :: 0 <= i < |names| ==> OpOf(names[i]).Some?
  }

  function OpsOf(names: seq<string>): set<ChangeOp> {
    if names == [] then {}
    else OpsOf(names[..|names| - 1]) + if OpOf(names[|names| - 1]).Some? then {OpOf(names[|names| - 1]).value} else {}
  }

  datatype BadOps = BadOps

  datatype ChangeRecord = ChangeRecord(op: ChangeOp, keys: Option<seq<string>>, count: nat)

  datatype Listener = Listener(id: nat, ops: set<ChangeOp>)

  datatype Queued = Queued(record: ChangeRecord, depth: nat)

  /** One call of a listener. */
  datatype Delivery = Delivery(id: nat, record: ChangeRecord)

  /** What a listener may do while it runs. */
  datatype Action = Write(record: ChangeRecord) | Subscribe(ops: seq<string>) | Unsubscribe(id: nat) | Close

  /** A listener's code: what it does, given every call so far, its own included. */
  type Reaction = seq<Delivery> -> seq<Action>

  const MAX_DISPATCH_DEPTH: nat := 8

  // ---- What is promised of the history ----------------------------------------------------------

  /** The delivery of one record: who was subscribed as it began, who was called, who had left by its end. */
  datatype Group = Group(record: ChangeRecord, subscribed: seq<Listener>, calls: seq<nat>, left: set<nat>)

  ghost predicate Ascending(ids: seq<nat>) {
    forall i, j :: 0 <= i < j < |ids| ==> ids[i] < ids[j]
  }

  function IdsOf(listeners: seq<Listener>): (ids: seq<nat>)
    ensures |ids| == |listeners| && forall i :: 0 <= i < |ids| ==> ids[i] == listeners[i].id
  {
    seq(|listeners|, i requires 0 <= i < |listeners| => listeners[i].id)
  }

  ghost predicate Asked(subscribed: seq<Listener>, op: ChangeOp, id: nat) {
    exists i :: 0 <= i < |subscribed| && subscribed[i].id == id && op in subscribed[i].ops
  }

  ghost predicate NobodyMissed(subscribed: seq<Listener>, op: ChangeOp, calls: seq<nat>, left: set<nat>) {
    forall i :: 0 <= i < |subscribed| && op in subscribed[i].ops ==>
      subscribed[i].id in calls || subscribed[i].id in left
  }

  /** Registration order, nobody twice, only those who asked, and everybody who asked unless gone by the end. */
  ghost predicate Fair(g: Group) {
    && Ascending(g.calls)
    && (forall id :: id in g.calls ==> Asked(g.subscribed, g.record.op, id))
    && NobodyMissed(g.subscribed, g.record.op, g.calls, g.left)
  }

  function CallsOf(record: ChangeRecord, ids: seq<nat>): seq<Delivery> {
    seq(|ids|, i requires 0 <= i < |ids| => Delivery(ids[i], record))
  }

  function Flat(groups: seq<Group>): seq<Delivery> {
    if groups == [] then []
    else
      var last := groups[|groups| - 1];
      Flat(groups[..|groups| - 1]) + CallsOf(last.record, last.calls)
  }

  /** The listeners' ids grow in registration order; an id that is no longer listed has been removed. */
  ghost predicate IdsFit(listeners: seq<Listener>, nextId: nat, removed: map<nat, nat>) {
    && Ascending(IdsOf(listeners))
    && (forall id :: id in IdsOf(listeners) ==> id < nextId && id !in removed)
    && (forall id :: 0 <= id < nextId && id !in IdsOf(listeners) ==> id in removed)
    && (forall id :: id in removed ==> id < nextId)
  }

  /** `removed` says how many calls had been made when an id was removed: none of that id came later. */
  ghost predicate NeverAfterRemoval(log: seq<Delivery>, removed: map<nat, nat>) {
    && (forall id :: id in removed ==> removed[id] <= |log|)
    && (forall i :: 0 <= i < |log| && log[i].id in removed ==> i < removed[log[i].id])
  }

  ghost predicate GroupsFit(groups: seq<Group>, accepted: seq<Queued>) {
    |groups| <= |accepted|
    && forall i :: 0 <= i < |groups| ==> groups[i].record == accepted[i].record && Fair(groups[i])
  }

  /** Accepted records not yet delivered: the rest of the current batch, then the queue, in that order. */
  ghost predicate PendingIs(rest: seq<Queued>, queue: seq<Queued>, accepted: seq<Queued>, done: nat, closed: bool) {
    && done <= |accepted|
    && rest + queue <= accepted[done..]
    && (!closed ==> rest + queue == accepted[done..])
  }

  ghost predicate QueueFits(queue: seq<Queued>, scheduled: bool, closed: bool) {
    && (forall i :: 0 <= i < |queue| ==> 1 <= queue[i].depth <= MAX_DISPATCH_DEPTH)
    && (scheduled <==> queue != [])
    && (closed ==> queue == [])
  }

  /** History is only ever added to. */
  ghost predicate Grown(log: seq<Delivery>, logNow: seq<Delivery>, accepted: seq<Queued>, acceptedNow: seq<Queued>,
                        removed: map<nat, nat>, removedNow: map<nat, nat>) {
    log <= logNow && accepted <= acceptedNow
    && forall id :: id in removed ==> id in removedNow && removedNow[id] == removed[id]
  }

  /** The least depth in a queue. */
  function LeastDepth(queue: seq<Queued>): (m: nat)
    requires queue != []
    ensures exists i :: 0 <= i < |queue| && queue[i].depth == m
    ensures forall i :: 0 <= i < |queue| ==> m <= queue[i].depth
  {
    if |queue| == 1 then queue[0].depth
    else
      var m := LeastDepth(queue[1..]);
      if queue[0].depth <= m then queue[0].depth else m
  }

  // ---- What each step does ------------------------------------------------------------------------

  /**
   * The state between two calls of listeners: the dispatcher's own, and the records that the cache has
   * published as events, for the kinds of change it was told to publish.
   */
  datatype Desk = Desk(listeners: seq<Listener>, nextId: nat, queue: seq<Queued>, closed: bool,
                       log: seq<Delivery>, publishOps: set<ChangeOp>, published: seq<ChangeRecord>)

  predicate Wanted(listeners: seq<Listener>, op: ChangeOp) {
    exists i :: 0 <= i < |listeners| && op in listeners[i].ops
  }

  function Without(listeners: seq<Listener>, id: nat): seq<Listener> {
    if listeners == [] then []
    else if listeners[0].id == id then listeners[1..]
    else [listeners[0]] + Without(listeners[1..], id)
  }

  function AfterAction(d: Desk, action: Action, depth: nat): Desk {
    match action
    case Write(record) =>
      if d.closed then d
      else
        var taken := Wanted(d.listeners, record.op) && depth + 1 <= MAX_DISPATCH_DEPTH;
        d.(queue := if taken then d.queue + [Queued(record, depth + 1)] else d.queue,
           published := if record.op in d.publishOps then d.published + [record] else d.published)
    case Subscribe(ops) =>
      if d.closed || !AreOps(ops) then d
      else d.(listeners := d.listeners + [Listener(d.nextId, OpsOf(ops))], nextId := d.nextId + 1)
    case Unsubscribe(id) => d.(listeners := Without(d.listeners, id))
    case Close => d.(closed := true, listeners := [], queue := [])
  }

  function AfterActions(d: Desk, actions: seq<Action>, depth: nat): Desk
    decreases |actions|
  {
    if actions == [] then d
    else AfterAction(AfterActions(d, actions[..|actions| - 1], depth), actions[|actions| - 1], depth)
  }

  /** A listener is called if it wants the record and is still there; then its actions take effect. */
  function AfterCall(d: Desk, l: Listener, item: Queued, react: Reaction): Desk {
    if item.record.op !in l.ops || l.id !in IdsOf(d.listeners) then d
    else
      var log := d.log + [Delivery(l.id, item.record)];
      AfterActions(d.(log := log), react(log), item.depth)
  }

  function AfterCalls(d: Desk, snapshot: seq<Listener>, item: Queued, react: Reaction): Desk
    decreases |snapshot|
  {
    if snapshot == [] then d
    else AfterCall(AfterCalls(d, snapshot[..|snapshot| - 1], item, react), snapshot[|snapshot| - 1], item, react)
  }

  /** Each record in turn goes to a snapshot of the listeners there are then. */
  function AfterBatch(d: Desk, batch: seq<Queued>, react: Reaction): Desk
    decreases |batch|
  {
    if batch == [] then d
    else
      var before := AfterBatch(d, batch[..|batch| - 1], react);
      AfterCalls(before, before.listeners, batch[|batch| - 1], react)
  }

  /** One turn of the event loop. */
  function AfterTurn(d: Desk, react: Reaction): Desk {
    AfterBatch(d.(queue := []), d.queue, react)
  }

  function AfterTurns(d: Desk, react: Reaction, n: nat): Desk {
    if n == 0 then d else AfterTurn(AfterTurns(d, react, n - 1), react)
  }

  class ChangeDispatcher {
    var listeners: seq<Listener>
    var nextId: nat
    var queue: seq<Queued>
    var scheduled: bool
    var currentDepth: nat
    var closed: bool
    var log: seq<Delivery>
    const publishOps: set<ChangeOp>
    var published: seq<ChangeRecord>
    ghost var accepted: seq<Queued>
    ghost var groups: seq<Group>
    ghost var removed: map<nat, nat>

    ghost function State(): Desk
      reads this
    {
      Desk(listeners, nextId, queue, closed, log, publishOps, published)
    }

    /** What holds at every moment; `rest` is the part of the current batch still to deliver. */
    ghost predicate Valid(rest: seq<Queued>)
      reads this
    {
      && IdsFit(listeners, nextId, removed)
      && NeverAfterRemoval(log, removed)
      && QueueFits(queue, scheduled, closed)
      && GroupsFit(groups, accepted)
      && PendingIs(rest, queue, accepted, |groups|, closed)
    }

    constructor (publishOps: set<ChangeOp>)
      ensures Valid([]) && accepted == [] && groups == [] && removed == map[] && currentDepth == 0
      ensures State() == Desk([], 0, [], false, [], publishOps, [])
    {
      this.publishOps, published := publishOps, [];
      listeners, nextId, queue, scheduled, currentDepth, closed, log := [], 0, [], false, 0, false, [];
      accepted, groups, removed := [], [], map[];
    }

    /** Registers a listener under the next id, or refuses no or unknown kinds of change. Closing is not looked at. */
    method AddListener(names: seq<string>, ghost rest: seq<Queued>) returns (r: Result<nat, BadOps>)
      requires Valid(rest)
      modifies `listeners, `nextId
      ensures Valid(rest)
      ensures r == if AreOps(names) then Ok(old(nextId)) else Err(BadOps)
      ensures listeners == if r.Ok? then old(listeners) + [Listener(old(nextId), OpsOf(names))] else old(listeners)
      ensures nextId == if r.Ok? then old(nextId) + 1 else old(nextId)
    {
      var ops := {};
      for i := 0 to |names|
        invariant ops == OpsOf(names[..i]) && (i > 0 ==> ops != {})
        invariant forall j :: 0 <= j < i ==> OpOf(names[j]).Some?
      {
        assert names[..i + 1][..i] == names[..i];
        var op := OpOf(names[i]);
        if op.None? {
          return Err(BadOps);
        }
        ops := ops + {op.value};
      }
      assert names[..|names|] == names;
      if ops == {} {
        return Err(BadOps);
      }
      AddedFits(listeners, ops, nextId, removed);
      listeners := listeners + [Listener(nextId, ops)];
      nextId := nextId + 1;
      return Ok(nextId - 1);
    }

    /** What the function that add returned does: from now on `id` is never called. */
    method Remove(id: nat, ghost rest: seq<Queued>)
      requires Valid(rest)
      modifies `listeners, `removed
      ensures Valid(rest) && (id < nextId ==> id in removed)
      ensures Grown(old(log), log, old(accepted), accepted, old(removed), removed)
      ensures listeners == Without(old(listeners), id)
    {
      WithoutFits(listeners, id, nextId, removed, |log|);
      removed := RemovedAt(listeners, id, removed, |log|);
      listeners := Without(listeners, id);
    }

    method Wants(op: ChangeOp) returns (b: bool)
      ensures b <==> exists i :: 0 <= i < |listeners| && op in listeners[i].ops
    {
      for i := 0 to |listeners|
        invariant forall j :: 0 <= j < i ==> op !in listeners[j].ops
      {
        if op in listeners[i].ops {
          return true;
        }
      }
      return false;
    }

    /** One level deeper than the record being delivered; dropped when that is too deep, or after close. */
    method Submit(record: ChangeRecord, ghost rest: seq<Queued>)
      requires Valid(rest)
      modifies `queue, `scheduled, `accepted
      ensures Valid(rest)
      ensures var taken := !closed && currentDepth + 1 <= 8;
              && queue == (if taken then old(queue) + [Queued(record, currentDepth + 1)] else old(queue))
              && accepted == (if taken then old(accepted) + [Queued(record, currentDepth + 1)] else old(accepted))
    {
      if closed {
        return;
      }
      var depth := currentDepth + 1;
      if depth > MAX_DISPATCH_DEPTH {
        return;
      }
      ghost var item := Queued(record, depth);
      assert rest + (queue + [item]) == (rest + queue) + [item];
      assert (accepted + [item])[|groups|..] == accepted[|groups|..] + [item];
      queue := queue + [Queued(record, depth)];
      accepted := accepted + [item];
      scheduled := true;
    }

    /** A committed write: a record for those who listen for it, and an event if such changes are published. */
    method Changed(record: ChangeRecord, ghost rest: seq<Queued>)
      requires Valid(rest)
      modifies `queue, `scheduled, `accepted, `published
      ensures Valid(rest)
      ensures published == if record.op in publishOps then old(published) + [record] else old(published)
      ensures var taken := !closed && currentDepth + 1 <= 8 && Wanted(listeners, record.op);
              && queue == (if taken then old(queue) + [Queued(record, currentDepth + 1)] else old(queue))
              && accepted == (if taken then old(accepted) + [Queued(record, currentDepth + 1)] else old(accepted))
    {
      var wanted := Wants(record.op);
      if wanted {
        Submit(record, rest);
      }
      if record.op in publishOps {
        published := published + [record];
      }
    }

    method CloseDispatcher(ghost rest: seq<Queued>)
      requires Valid(rest)
      modifies `closed, `listeners, `queue, `scheduled, `removed
      ensures Valid(rest) && closed && listeners == [] && queue == []
      ensures Grown(old(log), log, old(accepted), accepted, old(removed), removed)
      && forall id :: 0 <= id < nextId ==> id in removed
    {
      AllRemovedFits(listeners, nextId, removed, log);
      assert rest + [] <= rest + queue;
      removed := AllRemovedAt(listeners, removed, |log|);
      closed, listeners, queue, scheduled := true, [], [], false;
    }

    /** A listener's own actions, in the order it takes them; a closed cache refuses writes and new listeners. */
    method Act(actions: seq<Action>, ghost rest: seq<Queued>)
      requires Valid(rest)
      modifies `listeners, `nextId, `queue, `scheduled, `closed, `accepted, `removed, `published
      ensures State() == AfterActions(old(State()), actions, currentDepth)
      ensures Valid(rest) && old(nextId) <= nextId
      ensures Grown(old(log), log, old(accepted), accepted, old(removed), removed)
      ensures forall q :: q in queue ==> q in old(queue) || q.depth == currentDepth + 1
    {
      for n := 0 to |actions|
        invariant Valid(rest) && old(nextId) <= nextId
        invariant State() == AfterActions(old(State()), actions[..n], currentDepth)
        invariant Grown(old(log), log, old(accepted), accepted, old(removed), removed)
        invariant forall q :: q in queue ==> q in old(queue) || q.depth == currentDepth + 1
      {
        assert actions[..n + 1][..n] == actions[..n];
        Take(actions[n], rest);
      }
      assert actions[..|actions|] == actions;
    }

    method Take(action: Action, ghost rest: seq<Queued>)
      requires Valid(rest)
      modifies `listeners, `nextId, `queue, `scheduled, `closed, `accepted, `removed, `published
      ensures State() == AfterAction(old(State()), action, currentDepth)
      ensures Valid(rest) && old(nextId) <= nextId
      ensures Grown(old(log), log, old(accepted), accepted, old(removed), removed)
      ensures forall q :: q in queue ==> q in old(queue) || q.depth == currentDepth + 1
    {
      match action {
        case Write(record) => if !closed { Changed(record, rest); }
        case Subscribe(ops) => if !closed { var _ := AddListener(ops, rest); }
        case Unsubscribe(id) => Remove(id, rest);
        case Close => CloseDispatcher(rest);
      }
    }

    /** Calls one listener, unless it does not want the record or has gone since the delivery began. */
    method CallListener(l: Listener, item: Queued, react: Reaction, ghost rest: seq<Queued>) returns (called: bool)
      requires Valid(rest) && l.id < nextId && currentDepth == 0
      modifies this
      ensures Valid(rest) && unchanged(`groups) && currentDepth == 0
      ensures old(nextId) <= nextId && Grown(old(log), log, old(accepted), accepted, old(removed), removed)
      ensures State() == AfterCall(old(State()), l, item, react)
      ensures called ==> item.record.op in l.ops && l.id !in old(removed)
      ensures !called && item.record.op in l.ops ==> l.id in removed
      ensures log == if called then old(log) + [Delivery(l.id, item.record)] else old(log)
      ensures forall q :: q in queue ==> q in old(queue) || q.depth == item.depth + 1
    {
      var listed := HasId(l.id);
      if item.record.op !in l.ops || !listed {
        return false;
      }
      currentDepth := item.depth;
      log := log + [Delivery(l.id, item.record)];
      Act(react(log), rest);
      currentDepth := 0;
      return true;
    }

    /** One record, to a snapshot of the listeners. */
    method Deliver(item: Queued, react: Reaction, ghost rest: seq<Queued>)
      requires Valid([item] + rest) && log == Flat(groups) && currentDepth == 0
      modifies this
      ensures Valid(rest) && log == Flat(groups) && currentDepth == 0 && |groups| == |old(groups)| + 1
      ensures State() == AfterCalls(old(State()), old(listeners), item, react)
      ensures Grown(old(log), log, old(accepted), accepted, old(removed), removed)
      ensures forall q :: q in queue ==> q in old(queue) || q.depth == item.depth + 1
    {
      var snapshot := listeners;
      ghost var calls := CallAll(snapshot, item, react, [item] + rest);
      ghost var g := Group(item.record, snapshot, calls, removed.Keys);
      assert (groups + [g])[..|groups|] == groups;
      Delivered([item], rest, queue, accepted, |groups|, closed);
      groups := groups + [g];
    }

    method CallAll(snapshot: seq<Listener>, item: Queued, react: Reaction, ghost rest: seq<Queued>)
      returns (ghost calls: seq<nat>)
      requires Valid(rest) && snapshot == listeners && currentDepth == 0
      modifies this
      ensures Valid(rest) && groups == old(groups) && currentDepth == 0
      ensures State() == AfterCalls(old(State()), snapshot, item, react)
      ensures Grown(old(log), log, old(accepted), accepted, old(removed), removed)
      ensures Served(snapshot, item.record, calls, removed.Keys) && log == old(log) + CallsOf(item.record, calls)
      ensures forall q :: q in queue ==> q in old(queue) || q.depth == item.depth + 1
    {
      calls := [];
      SnapshotIds(snapshot, nextId, removed);
      for i := 0 to |snapshot|
        invariant Valid(rest) && currentDepth == 0 && groups == old(groups)
        invariant State() == AfterCalls(old(State()), snapshot[..i], item, react)
        invariant Grown(old(log), log, old(accepted), accepted, old(removed), removed)
        invariant forall l :: l in snapshot ==> l.id < nextId
        invariant log == old(log) + CallsOf(item.record, calls)
        invariant Served(snapshot[..i], item.record, calls, removed.Keys)
        invariant forall q :: q in queue ==> q in old(queue) || q.depth == item.depth + 1
      {
        ghost var gone := removed.Keys;
        assert snapshot[..i + 1][..i] == snapshot[..i];
        var called := CallListener(snapshot[i], item, react, rest);
        OneMoreServed(snapshot, i, item.record, calls, gone, removed.Keys, called);
        if called {
          OneMoreCall(old(log), item.record, calls, snapshot[i].id);
          calls := calls + [snapshot[i].id];
        }
      }
      assert snapshot[..|snapshot|] == snapshot;
    }

    /**
     * One turn of the event loop: the queue as it stands is the batch; whatever its deliveries
     * cause waits for the next turn, at least one level deeper.
     */
    method Drain(react: Reaction)
      requires Valid([]) && log == Flat(groups) && queue != [] && currentDepth == 0
      modifies this
      ensures Valid([]) && log == Flat(groups) && currentDepth == 0
      ensures State() == AfterTurn(old(State()), react)
      ensures queue != [] ==> LeastDepth(queue) > LeastDepth(old(queue))
      ensures Grown(old(log), log, old(accepted), accepted, old(removed), removed)
    {
      scheduled := false;
      var batch := queue;
      queue := [];
      assert [] + batch == batch + [];
      ghost var least := LeastDepth(batch);
      NoneIsShallower(batch);
      DeliverBatch(batch, react, least);
      AllAreDeeper(queue, least);
    }

    method DeliverBatch(batch: seq<Queued>, react: Reaction, ghost least: nat)
      requires Valid(batch) && log == Flat(groups) && currentDepth == 0 && queue == []
      requires forall q :: q in batch ==> q.depth >= least
      modifies this
      ensures Valid([]) && log == Flat(groups) && currentDepth == 0
      ensures State() == AfterBatch(old(State()), batch, react)
      ensures forall q :: q in queue ==> q.depth > least
      ensures Grown(old(log), log, old(accepted), accepted, old(removed), removed)
    {
      for i := 0 to |batch|
        invariant Valid(batch[i..]) && log == Flat(groups) && currentDepth == 0
        invariant State() == AfterBatch(old(State()), batch[..i], react)
        invariant Grown(old(log), log, old(accepted), accepted, old(removed), removed)
        invariant forall q :: q in queue ==> q.depth > least
      {
        assert batch[i..] == [batch[i]] + batch[i + 1..] && batch[..i + 1][..i] == batch[..i];
        Deliver(batch[i], react, batch[i + 1..]);
      }
      assert batch[|batch|..] == [] && batch[..|batch|] == batch;
    }

    /** The next turn of a loop that began at `start`. */
    method TakeTurn(react: Reaction, ghost start: Desk, ghost turns: nat)
      requires Valid([]) && log == Flat(groups) && queue != [] && currentDepth == 0
      requires State() == AfterTurns(start, react, turns)
      modifies this
      ensures Valid([]) && log == Flat(groups) && currentDepth == 0
      ensures State() == AfterTurns(start, react, turns + 1)
      ensures queue != [] ==> LeastDepth(queue) > LeastDepth(old(queue))
      ensures Grown(old(log), log, old(accepted), accepted, old(removed), removed)
    {
      Drain(react);
    }

    /**
     * Turns of the event loop until nothing is scheduled. However much the listeners write, it ends
     * within eight turns, with every accepted record delivered unless the dispatcher was closed.
     */
    method RunEventLoop(react: Reaction) returns (turns: nat)
      requires Valid([]) && log == Flat(groups) && currentDepth == 0
      modifies this
      ensures Valid([]) && log == Flat(groups) && queue == [] && currentDepth == 0 && turns <= 8
      ensures !closed ==> |groups| == |accepted|
      ensures State() == AfterTurns(old(State()), react, turns)
      ensures Grown(old(log), log, old(accepted), accepted, old(removed), removed)
    {
      turns := 0;
      while scheduled
        invariant Valid([]) && log == Flat(groups) && currentDepth == 0
        invariant State() == AfterTurns(old(State()), react, turns)
        invariant Grown(old(log), log, old(accepted), accepted, old(removed), removed)
        invariant turns <= if queue == [] then MAX_DISPATCH_DEPTH else LeastDepth(queue) - 1
        decreases MAX_DISPATCH_DEPTH + 1 - turns
      {
        TakeTurn(react, old(State()), turns);
        turns := turns + 1;
      }
      assert [] + queue == [];
    }

    method HasId(id: nat) returns (b: bool)
      ensures b <==> id in IdsOf(listeners)
    {
      for i := 0 to |listeners|
        invariant forall j :: 0 <= j < i ==> listeners[j].id != id
      {
        if listeners[i].id == id {
          assert IdsOf(listeners)[i] == id;
          return true;
        }
      }
      return false;
    }
  }

  lemma {:induction false} WithoutIds(listeners: seq<Listener>, id: nat)
    requires Ascending(IdsOf(listeners))
    ensures Ascending(IdsOf(Without(listeners, id)))
    ensures forall k :: k in IdsOf(Without(listeners, id)) <==> k in IdsOf(listeners) && k != id
    ensures forall l :: l in Without(listeners, id) ==> l in listeners
  {
    if listeners != [] {
      var ids := IdsOf(listeners);
      assert ids == [ids[0]] + IdsOf(listeners[1..]);
      forall i, j | 0 <= i < j < |listeners[1..]| ensures IdsOf(listeners[1..])[i] < IdsOf(listeners[1..])[j] {
        assert ids[i + 1] < ids[j + 1];
      }
      WithoutIds(listeners[1..], id);
      if listeners[0].id != id {
        var rest := IdsOf(Without(listeners[1..], id));
        assert IdsOf(Without(listeners, id)) == [ids[0]] + rest;
        forall i | 0 <= i < |rest| ensures ids[0] < rest[i] {
          assert rest[i] in IdsOf(listeners[1..]);
        }
      }
    }
  }

  lemma NoneIsShallower(queue: seq<Queued>)
    requires queue != []
    ensures forall q :: q in queue ==> q.depth >= LeastDepth(queue)
  {
  }

  lemma AllAreDeeper(queue: seq<Queued>, least: nat)
    requires forall q :: q in queue ==> q.depth > least
    ensures queue != [] ==> LeastDepth(queue) > least
  {
  }

  ghost function RemovedAt(listeners: seq<Listener>, id: nat, removed: map<nat, nat>, n: nat): map<nat, nat> {
    if id in IdsOf(listeners) then removed[id := n] else removed
  }

  lemma WithoutFits(listeners: seq<Listener>, id: nat, nextId: nat, removed: map<nat, nat>, n: nat)
    requires IdsFit(listeners, nextId, removed)
    ensures IdsFit(Without(listeners, id), nextId, RemovedAt(listeners, id, removed, n))
  {
    WithoutIds(listeners, id);
  }

  ghost function AllRemovedAt(listeners: seq<Listener>, removed: map<nat, nat>, n: nat): map<nat, nat> {
    removed + map id | id in IdsOf(listeners) :: n
  }

  lemma AllRemovedFits(listeners: seq<Listener>, nextId: nat, removed: map<nat, nat>, log: seq<Delivery>)
    requires IdsFit(listeners, nextId, removed) && NeverAfterRemoval(log, removed)
    ensures var after := AllRemovedAt(listeners, removed, |log|);
            && IdsFit([], nextId, after) && NeverAfterRemoval(log, after)
            && (forall id :: id in removed ==> id in after && after[id] == removed[id])
            && forall id :: 0 <= id < nextId ==> id in after
  {
  }

  lemma AddedFits(listeners: seq<Listener>, ops: set<ChangeOp>, nextId: nat, removed: map<nat, nat>)
    requires IdsFit(listeners, nextId, removed)
    ensures IdsFit(listeners + [Listener(nextId, ops)], nextId + 1, removed)
  {
    var before := IdsOf(listeners);
    assert IdsOf(listeners + [Listener(nextId, ops)]) == before + [nextId];
    assert forall i :: 0 <= i < |before| ==> before[i] in before;
  }

  /** Fairness for the part of a snapshot already gone through. */
  ghost predicate Served(seen: seq<Listener>, record: ChangeRecord, calls: seq<nat>, left: set<nat>) {
    Ascending(IdsOf(seen)) && Fair(Group(record, seen, calls, left))
  }

  lemma SnapshotIds(listeners: seq<Listener>, nextId: nat, removed: map<nat, nat>)
    requires IdsFit(listeners, nextId, removed)
    ensures forall l :: l in listeners ==> l.id < nextId
  {
    forall i | 0 <= i < |listeners| ensures listeners[i].id < nextId {
      assert IdsOf(listeners)[i] in IdsOf(listeners);
    }
  }

  lemma OneMoreServed(snapshot: seq<Listener>, i: nat, record: ChangeRecord, calls: seq<nat>,
                      left: set<nat>, leftNow: set<nat>, called: bool)
    requires i < |snapshot| && Ascending(IdsOf(snapshot))
    requires Served(snapshot[..i], record, calls, left) && left <= leftNow
    requires called ==> record.op in snapshot[i].ops
    requires !called && record.op in snapshot[i].ops ==> snapshot[i].id in leftNow
    ensures Served(snapshot[..i + 1], record, if called then calls + [snapshot[i].id] else calls, leftNow)
  {
    var ids := IdsOf(snapshot);
    assert IdsOf(snapshot[..i]) == ids[..i] && IdsOf(snapshot[..i + 1]) == ids[..i + 1];
    forall id | id in calls ensures id < snapshot[i].id && Asked(snapshot[..i + 1], record.op, id) {
      AskedBefore(snapshot, i, record.op, id);
    }
    if called {
      assert snapshot[..i + 1][i] == snapshot[i];
      assert Asked(snapshot[..i + 1], record.op, snapshot[i].id);
    }
    NoneMissed(snapshot, i, record.op, calls, left, leftNow, called);
    var after := if called then calls + [snapshot[i].id] else calls;
    forall j | 0 <= j < |calls| ensures calls[j] < snapshot[i].id {
      assert calls[j] in calls;
    }
    assert Ascending(after);
  }

  lemma AskedBefore(snapshot: seq<Listener>, i: nat, op: ChangeOp, id: nat)
    requires i < |snapshot| && Ascending(IdsOf(snapshot)) && Asked(snapshot[..i], op, id)
    ensures id < snapshot[i].id && Asked(snapshot[..i + 1], op, id)
  {
    var j :| 0 <= j < i && snapshot[..i][j].id == id && op in snapshot[..i][j].ops;
    assert snapshot[..i + 1][j] == snapshot[..i][j];
    assert IdsOf(snapshot)[j] < IdsOf(snapshot)[i];
  }

  lemma NoneMissed(snapshot: seq<Listener>, i: nat, op: ChangeOp, calls: seq<nat>,
                     left: set<nat>, leftNow: set<nat>, called: bool)
    requires i < |snapshot| && left <= leftNow && NobodyMissed(snapshot[..i], op, calls, left)
    requires !called && op in snapshot[i].ops ==> snapshot[i].id in leftNow
    ensures NobodyMissed(snapshot[..i + 1], op, if called then calls + [snapshot[i].id] else calls, leftNow)
  {
    forall j | 0 <= j < i && op in snapshot[j].ops ensures snapshot[j].id in calls || snapshot[j].id in leftNow {
      assert snapshot[..i][j] == snapshot[j];
    }
  }

  lemma OneMoreCall(log: seq<Delivery>, record: ChangeRecord, calls: seq<nat>, id: nat)
    ensures log + CallsOf(record, calls + [id]) == log + CallsOf(record, calls) + [Delivery(id, record)]
  {
    assert CallsOf(record, calls + [id]) == CallsOf(record, calls) + [Delivery(id, record)];
  }

  lemma Delivered(first: seq<Queued>, rest: seq<Queued>, queue: seq<Queued>,
                    accepted: seq<Queued>, done: nat, closed: bool)
    requires |first| == 1 && PendingIs(first + rest, queue, accepted, done, closed)
    ensures done < |accepted| && accepted[done] == first[0]
    ensures PendingIs(rest, queue, accepted, done + 1, closed)
  {
    assert (first + rest) + queue == first + (rest + queue);
    assert accepted[done + 1..] == accepted[done..][1..];
  }
}
