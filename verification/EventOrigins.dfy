/** Where everything in a run of the event protocol comes from: each deletion, each subscriber and each gap. */
module EventOrigins {
  import opened Prelude
  import opened ChannelFilter
  import opened EventLog
  import opened Subscription
  import opened EventProtocol
  import opened EventGuarantees

  // ---- Retention deletes only what was due ---------------------------------------------------------

  /**
   * When a sweeper read its bound, event q was due: it, or an event after it, was old enough, or as many
   * events as the cap allows came after it.
   */
  ghost predicate MakesDue(s: System, step: Step, q: int) {
    match step
    case SweepAge(_, cutoff) => exists e :: e in s.log.rows && q <= e.seqNo && e.createdAt <= cutoff
    case SweepCap(_, n) => n > 0 && exists i :: 0 <= i && i + n < |s.log.rows| && q <= s.log.rows[i].seqNo
    case _ => false
  }

  ghost predicate WasDue(steps: seq<Step>, q: int) {
    exists k :: 0 <= k < |steps| && MakesDue(Execute(Empty, steps[..k]), steps[k], q)
  }

  lemma StillWasDue(steps: seq<Step>, q: int)
    requires steps != [] && WasDue(steps[..|steps| - 1], q)
    ensures forall p :: p <= q ==> WasDue(steps, p)
  {
    var front := steps[..|steps| - 1];
    var k :| 0 <= k < |front| && MakesDue(Execute(Empty, front[..k]), front[k], q);
    assert front[..k] == steps[..k];
    forall p | p <= q ensures WasDue(steps, p) {
      LowerIsDueToo(Execute(Empty, steps[..k]), steps[k], q, p);
    }
  }

  lemma LowerIsDueToo(s: System, step: Step, q: int, p: int)
    requires MakesDue(s, step, q) && p <= q
    ensures MakesDue(s, step, p)
  {
    match step
    case SweepAge(_, cutoff) =>
      var e :| e in s.log.rows && q <= e.seqNo && e.createdAt <= cutoff;
      assert p <= e.seqNo;
    case SweepCap(_, n) =>
      var i :| 0 <= i && i + n < |s.log.rows| && q <= s.log.rows[i].seqNo;
      assert p <= s.log.rows[i].seqNo;
  }

  ghost predicate AllDue(s: System, steps: seq<Step>) {
    && (forall q :: q in s.retired ==> WasDue(steps, q))
    && (forall id :: id in s.sweepers && s.sweepers[id].Some? ==> WasDue(steps, s.sweepers[id].value))
  }

  /** What a step may add: a bound that its own reading makes due, or seqs up to a bound there was. */
  lemma StepRetiresDue(s: System, step: Step)
    requires Inv(s)
    ensures var t := Next(s, step);
            && (forall q :: q in t.retired && q !in s.retired ==>
                  exists id :: id in s.sweepers && s.sweepers[id].Some? && q <= s.sweepers[id].value)
            && (forall id :: id in t.sweepers && t.sweepers[id].Some? ==>
                  || (id in s.sweepers && s.sweepers[id] == t.sweepers[id])
                  || MakesDue(s, step, t.sweepers[id].value))
  {
    match step
    case SweepAge(_, cutoff) => AgeBoundShape(s.log.rows, cutoff);
    case SweepCap(_, n) =>
      if n > 0 && CapBound(s.log.rows, n).Some? {
        var i := |s.log.rows| - 1 - n;
        assert i + n < |s.log.rows| && CapBound(s.log.rows, n).value <= s.log.rows[i].seqNo;
      }
    case SweepBatch(id) =>
      if id in s.sweepers && s.sweepers[id].Some? {
        RetiresUpTo(s, id);
      }
    case _ =>
  }

  lemma RetiresUpTo(s: System, id: nat)
    requires Inv(s) && id in s.sweepers && s.sweepers[id].Some?
    ensures forall q :: q in Sweep(s, id).retired && q !in s.retired ==> q <= s.sweepers[id].value
  {
    var bound := s.sweepers[id].value;
    var left := DeleteFirst(s.log.rows, UpTo(bound), BATCH);
    DeleteFirstLeaves(s.log.rows, UpTo(bound), BATCH);
    forall q | q in Seqs(s.log.rows) - Seqs(left) ensures q <= bound {
      var e :| e in s.log.rows && e.seqNo == q;
      assert e !in left;
    }
  }

  lemma {:induction false} RunRetiresDue(steps: seq<Step>)
    ensures AllDue(Execute(Empty, steps), steps)
    decreases |steps|
  {
    if steps != [] {
      var front := steps[..|steps| - 1];
      RunRetiresDue(front);
      RunKeepsInv(Empty, front);
      ExtendDue(Execute(Empty, front), steps);
    }
  }

  lemma ExtendDue(s: System, steps: seq<Step>)
    requires steps != [] && s == Execute(Empty, steps[..|steps| - 1]) && Inv(s) && AllDue(s, steps[..|steps| - 1])
    ensures AllDue(Next(s, steps[|steps| - 1]), steps)
  {
    var front, step := steps[..|steps| - 1], steps[|steps| - 1];
    var t := Next(s, step);
    StepRetiresDue(s, step);
    forall q | q in t.retired ensures WasDue(steps, q) {
      if q in s.retired {
        StillWasDue(steps, q);
      } else {
        var id :| id in s.sweepers && s.sweepers[id].Some? && q <= s.sweepers[id].value;
        StillWasDue(steps, s.sweepers[id].value);
      }
    }
    forall id | id in t.sweepers && t.sweepers[id].Some? ensures WasDue(steps, t.sweepers[id].value) {
      if id in s.sweepers && s.sweepers[id] == t.sweepers[id] {
        StillWasDue(steps, s.sweepers[id].value);
      }
    }
  }

  /** In every run an event that retention deleted had been due when some sweeper read its bound. */
  lemma RetiredWereDue(steps: seq<Step>, q: int)
    requires q in Execute(Empty, steps).retired
    ensures WasDue(steps, q)
  {
    RunRetiresDue(steps);
  }

  // ---- Admins delete only what they named ------------------------------------------------------------

  ghost predicate Names(s: System, step: Step, q: int) {
    match step
    case PurgeEvent(p) => p == q
    case PurgeChannelBatch(channel) => exists e :: e in s.log.rows && e.seqNo == q && e.channel == channel
    case _ => false
  }

  lemma StepPurgesNamed(s: System, step: Step, q: int)
    requires q in Next(s, step).purged && q !in s.purged && Ordered(s.log.rows)
    ensures Names(s, step, q)
  {
    var w := if step.PurgeEvent? then Exactly(step.seqNo) else OnChannel(step.channel);
    DeleteFirstLeaves(s.log.rows, w, BATCH);
    var e :| e in s.log.rows && e.seqNo == q;
  }

  /** In every run a purged event was named by a purge, or was on a purged channel, while it was retained. */
  lemma {:induction false} PurgedWereNamed(steps: seq<Step>, q: int)
    requires q in Execute(Empty, steps).purged
    ensures exists k :: 0 <= k < |steps| && Names(Execute(Empty, steps[..k]), steps[k], q)
    decreases |steps|
  {
    var n := |steps| - 1;
    var front := steps[..n];
    if q in Execute(Empty, front).purged {
      PurgedWereNamed(front, q);
      var k :| 0 <= k < |front| && Names(Execute(Empty, front[..k]), front[k], q);
      assert front[..k] == steps[..k];
    } else {
      RunKeepsInv(Empty, front);
      StepPurgesNamed(Execute(Empty, front), steps[n], q);
    }
  }

  // ---- Subscribers get what they watch for -------------------------------------------------------------

  /** Where a watch that begins on this table starts. */
  predicate StartsAt(log: Log, from: Option<nat>, start: int) {
    match from
    case None => start == log.last
    case Some(n) =>
      start == if n > 0 then n else if log.rows == [] then log.last else log.rows[0].seqNo - 1
  }

  /** Step k of the run is the watch that this subscriber is. */
  ghost predicate IsWatch(steps: seq<Step>, k: int, id: nat, u: Sub) {
    && 0 <= k < |steps| && steps[k].Watch? && steps[k].sub == id && id !in Execute(Empty, steps[..k]).subs
    && u.ns == steps[k].ns && u.filter == steps[k].filter
    && StartsAt(Execute(Empty, steps[..k]).log, steps[k].from, u.start)
  }

  lemma StepKeepsIdentity(s: System, step: Step, id: nat)
    requires id in s.subs
    ensures id in Next(s, step).subs
    ensures var u, t := s.subs[id], Next(s, step).subs[id]; t.ns == u.ns && t.filter == u.filter && t.start == u.start
  {
  }

  lemma {:induction false} EverySubscriberWatched(steps: seq<Step>, id: nat)
    requires id in Execute(Empty, steps).subs
    ensures exists k :: IsWatch(steps, k, id, Execute(Empty, steps).subs[id])
    decreases |steps|
  {
    var n := |steps| - 1;
    var front := steps[..n];
    var s, t := Execute(Empty, front), Execute(Empty, steps);
    if id in s.subs {
      EverySubscriberWatched(front, id);
      StepKeepsIdentity(s, steps[n], id);
      var k :| IsWatch(front, k, id, s.subs[id]);
      assert front[..k] == steps[..k];
      assert IsWatch(steps, k, id, t.subs[id]);
    } else {
      assert IsWatch(steps, n, id, t.subs[id]);
    }
  }

  /**
   * In every run a subscriber is one that a watch began; it has been handed, in order, events of the
   * namespace and channels of that watch only, and all of those committed from where the watch started up
   * to its cursor but for purged ones.
   */
  lemma WatchersGetTheirShare(steps: seq<Step>, id: nat)
    requires id in Execute(Empty, steps).subs
    ensures var s := Execute(Empty, steps);
            var u := s.subs[id];
            exists k :: IsWatch(steps, k, id, u)
                        && IsShareOf(Out(u), s.history, s.purged, steps[k].ns, steps[k].filter, u.start, u.cursor)
  {
    RunKeepsInv(Empty, steps);
    var s := Execute(Empty, steps);
    var u := s.subs[id];
    EverySubscriberWatched(steps, id);
    var k :| IsWatch(steps, k, id, u);
    assert IsShareOf(Out(u), s.history, s.purged, steps[k].ns, steps[k].filter, u.start, u.cursor);
  }

  ghost predicate IsShareOf(events: seq<Event>, history: seq<Event>, purged: set<int>, ns: string, filter: Filter,
                            start: int, cursor: int) {
    && (forall i, j :: 0 <= i < j < |events| ==> events[i].seqNo < events[j].seqNo)
    && (forall e :: e in events ==>
          e in history && start < e.seqNo <= cursor && e.ns == ns && Accepts(filter, e.channel))
    && (forall e :: e in history && start < e.seqNo <= cursor && e.ns == ns && Accepts(filter, e.channel) ==>
          e in events || e.seqNo in purged)
  }

  // ---- Gaps are what a check found ------------------------------------------------------------------------

  ghost predicate WasFound(steps: seq<Step>, g: Gap) {
    exists k :: 0 <= k <= |steps| && GapCheck(Execute(Empty, steps[..k]).log, g.requested) == Some(g)
  }

  /** In every run a subscriber's gap is exactly what the gap check gave at its cursor at some point of the run. */
  lemma {:induction false} GapsWereFound(steps: seq<Step>, id: nat)
    requires id in Execute(Empty, steps).subs && Execute(Empty, steps).subs[id].gap.Some?
    ensures WasFound(steps, Execute(Empty, steps).subs[id].gap.value)
    decreases |steps|
  {
    var n := |steps| - 1;
    var front := steps[..n];
    var s := Execute(Empty, front);
    var g := Execute(Empty, steps).subs[id].gap.value;
    if id in s.subs && s.subs[id].gap == Some(g) {
      GapsWereFound(front, id);
      var k :| 0 <= k <= |front| && GapCheck(Execute(Empty, front[..k]).log, g.requested) == Some(g);
      assert front[..k] == steps[..k];
    }
  }
}
