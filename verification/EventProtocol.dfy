/**
 * Publishers, retention sweepers, admin purges and subscribers sharing one event table, as steps
 * interleaved in any order, and what every run of them guarantees a subscriber.
 */
module EventProtocol {
  import opened Prelude
  import opened ChannelFilter
  import opened EventLog
  import opened Subscription

  /**
   * The table and everyone using it. `history`, `retired` and `purged` only record what happened:
   * all events ever committed, the seqs retention deleted, and the seqs an admin deleted. A sweeper
   * carries the bound it read, possibly long ago.
   */
  datatype System = System(log: Log, history: seq<Event>, retired: set<int>, purged: set<int>,
                           subs: map<nat, Sub>, sweepers: map<nat, Option<int>>)

  const Empty := System(Log([], 0), [], {}, {}, map[], map[])

  datatype Step =
    | Notify(drafts: seq<Draft>, ns: string, now: int)
    | SweepAge(sweeper: nat, cutoff: int)
    | SweepCap(sweeper: nat, maxCount: nat)
    | SweepBatch(sweeper: nat)
    | PurgeEvent(seqNo: int)
    | PurgeChannelBatch(channel: string)
    | Watch(sub: nat, ns: string, filter: Filter, from: Option<nat>)
    | Poll(sub: nat)
    | HandOver(sub: nat)
    | TakeNext(sub: nat)
    | Leave(sub: nat)

  function Seqs(rows: seq<Event>): set<int> {
    set e | e in rows :: e.seqNo
  }

  /** A retention batch: rows no later than the sweeper's bound go; a short batch ends the pass. */
  function Sweep(s: System, id: nat): System
    requires id in s.sweepers
  {
    if s.sweepers[id].None? then s.(sweepers := s.sweepers - {id})
    else
      var left := DeleteFirst(s.log.rows, UpTo(s.sweepers[id].value), BATCH);
      s.(log := s.log.(rows := left),
         retired := s.retired + (Seqs(s.log.rows) - Seqs(left)),
         sweepers := if |s.log.rows| - |left| < BATCH then s.sweepers - {id} else s.sweepers)
  }

  function Purge(s: System, w: Where): System {
    var left := DeleteFirst(s.log.rows, w, BATCH);
    s.(log := s.log.(rows := left), purged := s.purged + (Seqs(s.log.rows) - Seqs(left)))
  }

  /** One step; a step that is not possible in this state changes nothing. */
  function Next(s: System, step: Step): System {
    match step
    case Notify(drafts, ns, now) =>
      var log := PublishAll(s.log, drafts, ns, now);
      PublishAllShape(s.log, drafts, ns, now);
      s.(log := log, history := s.history + log.rows[|s.log.rows|..])
    case SweepAge(id, cutoff) =>
      if id in s.sweepers then s else s.(sweepers := s.sweepers[id := AgeBound(s.log.rows, cutoff)])
    case SweepCap(id, n) =>
      if id !in s.sweepers || n == 0 then s
      else s.(sweepers := s.sweepers[id := Newest(s.sweepers[id], CapBound(s.log.rows, n))])
    case SweepBatch(id) => if id in s.sweepers then Sweep(s, id) else s
    case PurgeEvent(q) => Purge(s, Exactly(q))
    case PurgeChannelBatch(channel) => Purge(s, OnChannel(channel))
    case Watch(id, ns, filter, from) =>
      if id in s.subs then s else s.(subs := s.subs[id := Open(s.log, ns, filter, from)])
    case Poll(id) => if id in s.subs then s.(subs := s.subs[id := Fetch(s.subs[id], s.log)]) else s
    case HandOver(id) => if id in s.subs then s.(subs := s.subs[id := Send(s.subs[id])]) else s
    case TakeNext(id) => if id in s.subs then s.(subs := s.subs[id := Receive(s.subs[id]).0]) else s
    case Leave(id) => if id in s.subs then s.(subs := s.subs[id := Stop(s.subs[id])]) else s
  }

  function Execute(s: System, steps: seq<Step>): System
    decreases |steps|
  {
    if steps == [] then s else Next(Execute(s, steps[..|steps| - 1]), steps[|steps| - 1])
  }

  // ---- The invariant ----------------------------------------------------------------------------

  ghost predicate Numbered(history: seq<Event>) {
    forall i :: 0 <= i < |history| ==> history[i].seqNo == i + 1
  }

  ghost predicate OnRecord(history: seq<Event>, e: Event) {
    1 <= e.seqNo <= |history| && history[e.seqNo - 1] == e
  }

  ghost predicate RowsOnRecord(rows: seq<Event>, history: seq<Event>, purged: set<int>) {
    forall e :: e in rows ==> OnRecord(history, e) && e.seqNo !in purged
  }

  /** Every event ever committed is retained, retired or purged. */
  ghost predicate Accounted(rows: seq<Event>, history: seq<Event>, retired: set<int>, purged: set<int>) {
    forall i :: 0 <= i < |history| ==>
                  history[i] in rows || history[i].seqNo in retired || history[i].seqNo in purged
  }

  /** Retention only ever took the oldest: what it deleted lies below everything retained. */
  ghost predicate RetiredBelow(rows: seq<Event>, retired: set<int>) {
    forall q, e :: q in retired && e in rows ==> q < e.seqNo
  }

  ghost predicate AllWithin(qs: set<int>, last: int) {
    forall q :: q in qs ==> 1 <= q <= last
  }

  ghost predicate BoundsAssigned(sweepers: map<nat, Option<int>>, last: int) {
    forall id :: id in sweepers && sweepers[id].Some? ==> sweepers[id].value <= last
  }

  ghost predicate TableInv(s: System) {
    && ValidLog(s.log)
    && |s.history| == s.log.last
    && Numbered(s.history)
    && RowsOnRecord(s.log.rows, s.history, s.purged)
    && Accounted(s.log.rows, s.history, s.retired, s.purged)
    && RetiredBelow(s.log.rows, s.retired)
    && AllWithin(s.retired, s.log.last)
    && AllWithin(s.purged, s.log.last)
    && s.retired !! s.purged
    && BoundsAssigned(s.sweepers, s.log.last)
  }

  /** Everything handed to the consumer's side, received or still in its channel. */
  function Out(u: Sub): seq<Event> {
    u.handed + u.channel
  }

  /** A list of matching events on record, in seq order, all in (low, high]. */
  ghost predicate Sound(events: seq<Event>, history: seq<Event>, u: Sub, low: int, high: int) {
    && Ordered(events)
    && forall e :: e in events ==> low < e.seqNo <= high && OnRecord(history, e) && Wanted(u.ns, u.filter, e)
  }

  /** Every matching event in (low, high] is in the list, or an admin purged it. */
  ghost predicate Complete(events: seq<Event>, history: seq<Event>, purged: set<int>, u: Sub, low: int, high: int) {
    forall e :: e in history && low < e.seqNo <= high && Wanted(u.ns, u.filter, e)
                ==> e in events || e.seqNo in purged
  }

  /** The seq of the last event of a list, or `low` when there is none. */
  function LastOf(events: seq<Event>, low: int): int {
    if events == [] then low else events[|events| - 1].seqNo
  }

  /** A reported gap names the cursor, and nothing it says is lost is still in the table. */
  ghost predicate GapInv(g: Gap, log: Log, u: Sub) {
    && u.pending == []
    && g.requested == u.cursor
    && g.resume == g.oldest - 1
    && (!g.ahead ==>
          && u.cursor + 1 < g.oldest <= log.last + 1
          && forall e :: e in log.rows && u.cursor < e.seqNo ==> g.oldest <= e.seqNo)
  }

  /** What one subscriber has been given, and what it holds, is right for its cursor. */
  ghost predicate SubInv(log: Log, history: seq<Event>, purged: set<int>, u: Sub) {
    && 0 <= u.start <= u.cursor
    && (u.cursor <= log.last || (u.gap.Some? && u.gap.value.ahead && u.cursor == u.start))
    && u.cursor == LastOf(Out(u), u.start)
    && Sound(Out(u), history, u, u.start, u.cursor)
    && Complete(Out(u), history, purged, u, u.start, u.cursor)
    && Sound(u.pending, history, u, u.cursor, LastOf(u.pending, u.cursor))
    && Complete(u.pending, history, purged, u, u.cursor, LastOf(u.pending, u.cursor))
    && (u.gap.Some? ==> GapInv(u.gap.value, log, u))
    && |u.channel| <= QUEUE
  }

  ghost predicate Inv(s: System) {
    TableInv(s) && forall id :: id in s.subs ==> SubInv(s.log, s.history, s.purged, s.subs[id])
  }

  // ---- Steps of the table -------------------------------------------------------------------------

  /** What a table step may do, as far as a subscriber can tell. */
  ghost predicate TableMoves(s: System, t: System) {
    && s.history <= t.history
    && s.log.last <= t.log.last
    && s.purged <= t.purged
    && t.subs == s.subs
    && (forall e :: e in t.history && e !in s.history ==> s.log.last < e.seqNo)
    && (forall e :: e in t.log.rows ==> e in s.log.rows || s.log.last < e.seqNo)
  }

  lemma SubSurvivesTableStep(s: System, t: System, u: Sub)
    requires TableMoves(s, t) && SubInv(s.log, s.history, s.purged, u) && |s.history| == s.log.last
    ensures SubInv(t.log, t.history, t.purged, u)
  {
    if u.pending != [] {
      assert OnRecord(s.history, u.pending[|u.pending| - 1]);
    }
  }

  lemma NotifyHistory(s: System, drafts: seq<Draft>, ns: string, now: int)
    requires TableInv(s)
    ensures var t := Next(s, Notify(drafts, ns, now));
            && |t.history| == t.log.last
            && Numbered(t.history)
            && s.history <= t.history
            && (forall i :: |s.history| <= i < |t.history| ==>
                  t.history[i] in t.log.rows && s.log.last < t.history[i].seqNo)
            && (forall e :: e in t.log.rows ==> e in s.log.rows || (s.log.last < e.seqNo && OnRecord(t.history, e)))
  {
    PublishAllShape(s.log, drafts, ns, now);
  }

  lemma NotifyKeepsTable(s: System, drafts: seq<Draft>, ns: string, now: int)
    requires TableInv(s)
    ensures var t := Next(s, Notify(drafts, ns, now)); TableInv(t) && TableMoves(s, t)
  {
    var t := Next(s, Notify(drafts, ns, now));
    NotifyHistory(s, drafts, ns, now);
    PublishAllShape(s.log, drafts, ns, now);
    PublishAllValid(s.log, drafts, ns, now);
    assert RowsOnRecord(t.log.rows, t.history, t.purged) by {
      forall e | e in t.log.rows ensures OnRecord(t.history, e) && e.seqNo !in t.purged {
        if e in s.log.rows {
          assert OnRecord(s.history, e);
        }
      }
    }
    assert Accounted(t.log.rows, t.history, t.retired, t.purged) by {
      forall i | 0 <= i < |t.history|
        ensures t.history[i] in t.log.rows || t.history[i].seqNo in t.retired || t.history[i].seqNo in t.purged
      {
        if i < |s.history| {
          assert t.history[i] == s.history[i];
        }
      }
    }
  }

  lemma LeftIsValid(log: Log, w: Where)
    requires ValidLog(log)
    ensures var left := DeleteFirst(log.rows, w, BATCH);
            ValidLog(Log(left, log.last)) && forall e :: e in left ==> e in log.rows
  {
    DeleteFirstShape(log.rows, w, BATCH);
    var left := DeleteFirst(log.rows, w, BATCH);
    forall i | 0 <= i < |left| ensures 1 <= left[i].seqNo <= log.last {
      assert left[i] in log.rows;
    }
  }

  lemma PurgeKeepsTable(s: System, w: Where)
    requires TableInv(s)
    ensures TableInv(Purge(s, w)) && TableMoves(s, Purge(s, w))
  {
    var left := DeleteFirst(s.log.rows, w, BATCH);
    LeftIsValid(s.log, w);
    RetiredIsGone(s.log.rows, s.retired);
  }

  lemma RetiredIsGone(rows: seq<Event>, retired: set<int>)
    requires RetiredBelow(rows, retired)
    ensures Seqs(rows) !! retired
  {
  }

  lemma SweepKeepsTable(s: System, id: nat)
    requires TableInv(s) && id in s.sweepers
    ensures TableInv(Sweep(s, id)) && TableMoves(s, Sweep(s, id))
  {
    if s.sweepers[id].Some? {
      var bound := s.sweepers[id].value;
      var left := DeleteFirst(s.log.rows, UpTo(bound), BATCH);
      LeftIsValid(s.log, UpTo(bound));
      RetiredIsGone(s.log.rows, s.retired);
      BoundedDeleteLeavesSuffix(s.log.rows, bound, BATCH);
    }
  }

  lemma SweepBoundsKeepTable(s: System, step: Step)
    requires TableInv(s) && (step.SweepAge? || step.SweepCap?)
    ensures TableInv(Next(s, step)) && TableMoves(s, Next(s, step))
  {
    if step.SweepAge? {
      AgeBoundShape(s.log.rows, step.cutoff);
    }
  }

  predicate OnTable(step: Step) {
    step.Notify? || step.SweepAge? || step.SweepCap? || step.SweepBatch? || step.PurgeEvent? || step.PurgeChannelBatch?
  }

  lemma TableStepKeepsInv(s: System, step: Step)
    requires Inv(s) && OnTable(step)
    ensures Inv(Next(s, step))
  {
    var t := Next(s, step);
    assert TableInv(t) && TableMoves(s, t) by {
      match step
      case Notify(drafts, ns, now) => NotifyKeepsTable(s, drafts, ns, now);
      case SweepAge(_, _) => SweepBoundsKeepTable(s, step);
      case SweepCap(_, _) => SweepBoundsKeepTable(s, step);
      case SweepBatch(id) => if id in s.sweepers { SweepKeepsTable(s, id); }
      case PurgeEvent(q) => PurgeKeepsTable(s, Exactly(q));
      case PurgeChannelBatch(channel) => PurgeKeepsTable(s, OnChannel(channel));
    }
    forall id | id in t.subs ensures SubInv(t.log, t.history, t.purged, t.subs[id]) {
      SubSurvivesTableStep(s, t, s.subs[id]);
    }
  }

  // ---- Steps of a subscriber ------------------------------------------------------------------------

  /** A silent gap check puts every retired seq at or below the cursor. */
  lemma SilentCheckClearsRetired(s: System, cursor: int)
    requires TableInv(s) && GapCheck(s.log, cursor).None?
    ensures forall e :: e in s.history && cursor < e.seqNo ==> e in s.log.rows || e.seqNo in s.purged
  {
    forall q | q in s.retired ensures q <= cursor {
      if s.log.rows != [] {
        assert s.log.rows[0] in s.log.rows;
      }
    }
    forall e | e in s.history && cursor < e.seqNo ensures e in s.log.rows || e.seqNo in s.purged {
      var i :| 0 <= i < |s.history| && s.history[i] == e;
    }
  }

  /** So a batch misses nothing but what an admin purged. */
  lemma FetchIsGood(s: System, u: Sub)
    requires TableInv(s) && SubInv(s.log, s.history, s.purged, u)
    ensures SubInv(s.log, s.history, s.purged, Fetch(u, s.log))
  {
    var t := Fetch(u, s.log);
    assert Out(t) == Out(u);
    if u.pending == [] && u.gap.None? && !u.stopped {
      if t.gap.None? {
        SelectShape(s.log.rows, u.cursor, u.ns, u.filter, BATCH);
        SilentCheckClearsRetired(s, u.cursor);
        LastIsLargest(t.pending, u.cursor);
        BatchIsComplete(s, u, t.pending);
      }
    }
  }

  lemma LastIsLargest(events: seq<Event>, low: int)
    requires Ordered(events)
    ensures forall e :: e in events ==> e.seqNo <= LastOf(events, low)
  {
  }

  lemma BatchIsComplete(s: System, u: Sub, batch: seq<Event>)
    requires batch == Select(s.log.rows, u.cursor, u.ns, u.filter, BATCH) && Ordered(s.log.rows)
    requires forall e :: e in s.history && u.cursor < e.seqNo ==> e in s.log.rows || e.seqNo in s.purged
    ensures Complete(batch, s.history, s.purged, u, u.cursor, LastOf(batch, u.cursor))
  {
    SelectShape(s.log.rows, u.cursor, u.ns, u.filter, BATCH);
    if batch != [] {
      assert batch[|batch| - 1] in batch;
    }
  }

  lemma SendIsGood(log: Log, history: seq<Event>, purged: set<int>, u: Sub)
    requires SubInv(log, history, purged, u) && Numbered(history) && |history| == log.last
    ensures SubInv(log, history, purged, Send(u))
  {
    if u.pending != [] && |u.channel| < QUEUE {
      var e, t := u.pending[0], Send(u);
      assert Out(t) == Out(u) + [e];
      assert u.pending == [e] + t.pending;
      assert OnRecord(history, e);
      SplitSound(history, u, t, e);
      SplitComplete(history, purged, u, t, e);
    }
  }

  /** Moving the first pending event over keeps both lists sound for the new cursor. */
  lemma SplitSound(history: seq<Event>, u: Sub, t: Sub, e: Event)
    requires u.pending == [e] + t.pending && Out(t) == Out(u) + [e] && t.cursor == e.seqNo
    requires u.ns == t.ns && u.filter == t.filter && u.start == t.start <= u.cursor
    requires u.cursor == LastOf(Out(u), u.start) && Sound(Out(u), history, u, u.start, u.cursor)
    requires Sound(u.pending, history, u, u.cursor, LastOf(u.pending, u.cursor))
    ensures u.cursor < t.cursor && LastOf(u.pending, u.cursor) == LastOf(t.pending, t.cursor)
    ensures t.cursor == LastOf(Out(t), t.start) && Sound(Out(t), history, t, t.start, t.cursor)
    ensures Sound(t.pending, history, t, t.cursor, LastOf(t.pending, t.cursor))
  {
    assert e in u.pending && u.pending[0] == e;
    assert forall j :: 0 <= j < |t.pending| ==> t.pending[j] == u.pending[j + 1];
    forall d | d in t.pending ensures d in u.pending && t.cursor < d.seqNo {
      var j :| 0 <= j < |t.pending| && t.pending[j] == d;
      assert u.pending[j + 1] == d;
    }
  }

  /** Moving the first pending event over splits what is complete at that event. */
  lemma SplitComplete(history: seq<Event>, purged: set<int>, u: Sub, t: Sub, e: Event)
    requires u.pending == [e] + t.pending && Ordered(u.pending) && t.cursor == e.seqNo
    requires u.ns == t.ns && u.filter == t.filter && u.start == t.start
    requires u.start <= u.cursor && OnRecord(history, e) && Numbered(history)
    requires Out(t) == Out(u) + [e]
    requires Complete(Out(u), history, purged, u, u.start, u.cursor)
    requires Complete(u.pending, history, purged, u, u.cursor, LastOf(u.pending, u.cursor))
    ensures Complete(Out(t), history, purged, t, t.start, t.cursor)
    ensures u.cursor <= t.cursor ==>
              Complete(t.pending, history, purged, t, t.cursor, LastOf(u.pending, u.cursor))
  {
    assert u.pending[0] == e;
    forall d | d in t.pending ensures e.seqNo < d.seqNo {
      var j :| 0 <= j < |t.pending| && t.pending[j] == d;
      assert u.pending[j + 1] == d;
    }
    LastIsLargest(u.pending, u.cursor);
    assert e in u.pending;
    assert forall d :: d in u.pending ==> d == e || d in t.pending;
  }

  lemma ReceiveIsGood(log: Log, history: seq<Event>, purged: set<int>, u: Sub)
    requires SubInv(log, history, purged, u)
    ensures SubInv(log, history, purged, Receive(u).0) && Out(Receive(u).0) == Out(u)
  {
    if u.channel != [] {
      assert u.channel == [u.channel[0]] + u.channel[1..];
      assert Out(Receive(u).0) == Out(u);
    }
  }

  lemma StopIsGood(log: Log, history: seq<Event>, purged: set<int>, u: Sub)
    requires SubInv(log, history, purged, u)
    ensures SubInv(log, history, purged, Stop(u))
  {
    assert Out(Stop(u)) == Out(u);
  }

  lemma SubReplaced(s: System, id: nat, u: Sub)
    requires Inv(s) && SubInv(s.log, s.history, s.purged, u)
    ensures Inv(s.(subs := s.subs[id := u]))
  {
  }

  lemma SubStepKeepsInv(s: System, step: Step)
    requires Inv(s) && !OnTable(step)
    ensures Inv(Next(s, step))
  {
    var id := step.sub;
    if id in s.subs {
      var u := s.subs[id];
      match step
      case Watch(_, _, _, _) =>
      case Poll(_) =>
        FetchIsGood(s, u);
        SubReplaced(s, id, Fetch(u, s.log));
      case HandOver(_) =>
        SendIsGood(s.log, s.history, s.purged, u);
        SubReplaced(s, id, Send(u));
      case TakeNext(_) =>
        ReceiveIsGood(s.log, s.history, s.purged, u);
        SubReplaced(s, id, Receive(u).0);
      case Leave(_) =>
        StopIsGood(s.log, s.history, s.purged, u);
        SubReplaced(s, id, Stop(u));
    } else if step.Watch? {
      SubReplaced(s, id, Open(s.log, step.ns, step.filter, step.from));
    }
  }

  lemma StepKeepsInv(s: System, step: Step)
    requires Inv(s)
    ensures Inv(Next(s, step))
  {
    if OnTable(step) {
      TableStepKeepsInv(s, step);
    } else {
      SubStepKeepsInv(s, step);
    }
  }

  lemma {:induction false} RunKeepsInv(s: System, steps: seq<Step>)
    requires Inv(s)
    ensures Inv(Execute(s, steps))
    decreases |steps|
  {
    if steps != [] {
      RunKeepsInv(s, steps[..|steps| - 1]);
      StepKeepsInv(Execute(s, steps[..|steps| - 1]), steps[|steps| - 1]);
    }
  }
}
