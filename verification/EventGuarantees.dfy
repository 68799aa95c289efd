/** What every run of the event protocol guarantees. */
module EventGuarantees {
  import opened Prelude
  import opened ChannelFilter
  import opened EventLog
  import opened Subscription
  import opened EventProtocol

  // ---- Lists in seq order are determined by their elements ------------------------------------

  lemma {:induction false} OrderedUnique(a: seq<Event>, b: seq<Event>)
    requires Ordered(a) && Ordered(b)
    requires forall e :: e in a <==> e in b
    ensures a == b
  {
    assert b != [] ==> b[0] in b;
    if a != [] {
      assert a[0] in a && a[0] in b;
      assert b[0] in b && b[0] in a;
      assert a[0] == b[0] by {
        var i :| 0 <= i < |a| && a[i] == b[0];
        var j :| 0 <= j < |b| && b[j] == a[0];
        assert a[0].seqNo <= a[i].seqNo && b[0].seqNo <= b[j].seqNo;
      }
      TailElements(a);
      TailElements(b);
      OrderedUnique(a[1..], b[1..]);
    }
  }

  lemma TailElements(a: seq<Event>)
    requires Ordered(a) && a != []
    ensures Ordered(a[1..]) && forall e :: e in a[1..] <==> e in a && e != a[0]
  {
    assert a == [a[0]] + a[1..];
    forall e | e in a[1..] ensures e != a[0] {
      var i :| 0 <= i < |a[1..]| && a[1..][i] == e;
      assert a[i + 1].seqNo > a[0].seqNo;
    }
  }

  // ---- Delivery -------------------------------------------------------------------------------

  /** The subscriber's share of a history, in order, leaving some seqs out. */
  function Share(history: seq<Event>, u: Sub, low: int, high: int, without: set<int>): seq<Event> {
    if history == [] then []
    else if low < history[0].seqNo <= high && Wanted(u.ns, u.filter, history[0]) && history[0].seqNo !in without then
      [history[0]] + Share(history[1..], u, low, high, without)
    else Share(history[1..], u, low, high, without)
  }

  lemma {:induction false} ShareShape(history: seq<Event>, u: Sub, low: int, high: int, without: set<int>)
    requires Ordered(history)
    ensures Ordered(Share(history, u, low, high, without))
    ensures forall e :: e in Share(history, u, low, high, without) <==>
                        e in history && low < e.seqNo <= high && Wanted(u.ns, u.filter, e) && e.seqNo !in without
  {
    if history != [] {
      TailElements(history);
      ShareShape(history[1..], u, low, high, without);
      if low < history[0].seqNo <= high && Wanted(u.ns, u.filter, history[0]) && history[0].seqNo !in without {
        OrderedCons(history[0], Share(history[1..], u, low, high, without));
      }
    }
  }

  /**
   * In every run, what a subscriber has been handed is exactly its share of the whole history
   * between its start and its cursor, in order, each event once, short only of seqs an admin
   * purged. Retention never causes a silent skip.
   */
  lemma DeliveryIsExact(steps: seq<Step>, id: nat)
    requires id in Execute(Empty, steps).subs
    ensures var s := Execute(Empty, steps);
            var u := s.subs[id];
            exists missed :: missed <= s.purged && missed !! s.retired
                             && Out(u) == Share(s.history, u, u.start, u.cursor, missed)
  {
    RunKeepsInv(Empty, steps);
    var s := Execute(Empty, steps);
    HandedIsExact(s.history, s.retired, s.purged, s.subs[id]);
  }

  lemma HandedIsExact(history: seq<Event>, retired: set<int>, purged: set<int>, u: Sub)
    requires Numbered(history) && retired !! purged
    requires Sound(Out(u), history, u, u.start, u.cursor) && Complete(Out(u), history, purged, u, u.start, u.cursor)
    ensures exists missed :: missed <= purged && missed !! retired
                             && Out(u) == Share(history, u, u.start, u.cursor, missed)
  {
    var missed := purged - Seqs(Out(u));
    assert Ordered(history);
    ShareShape(history, u, u.start, u.cursor, missed);
    OutIsShare(history, purged, u, missed);
    OrderedUnique(Out(u), Share(history, u, u.start, u.cursor, missed));
  }

  lemma OutIsShare(history: seq<Event>, purged: set<int>, u: Sub, missed: set<int>)
    requires Numbered(history) && missed == purged - Seqs(Out(u))
    requires Sound(Out(u), history, u, u.start, u.cursor) && Complete(Out(u), history, purged, u, u.start, u.cursor)
    ensures forall e :: e in Out(u) <==>
                        e in history && u.start < e.seqNo <= u.cursor && Wanted(u.ns, u.filter, e) && e.seqNo !in missed
  {
    forall e | e in Out(u) ensures e in history && e.seqNo !in missed {
      assert OnRecord(history, e);
      assert e.seqNo in Seqs(Out(u));
    }
    forall e | e in history && e.seqNo in Seqs(Out(u)) ensures e in Out(u) {
      var d :| d in Out(u) && d.seqNo == e.seqNo;
      var i :| 0 <= i < |history| && history[i] == e;
      assert OnRecord(history, d);
    }
  }

  /** With no admin deletes the subscriber has its full share, whatever retention did meanwhile. */
  lemma DeliveryIsFullWithoutPurges(steps: seq<Step>, id: nat)
    requires id in Execute(Empty, steps).subs && Execute(Empty, steps).purged == {}
    ensures var s := Execute(Empty, steps);
            var u := s.subs[id];
            Out(u) == Share(s.history, u, u.start, u.cursor, {})
  {
    DeliveryIsExact(steps, id);
    var s := Execute(Empty, steps);
    var u := s.subs[id];
    var missed :| missed <= s.purged && missed !! s.retired
                  && Out(u) == Share(s.history, u, u.start, u.cursor, missed);
    assert missed == {};
  }

  /**
   * A gap reaches the consumer only after every event fetched before it; it starts at the last
   * event received, and each event it declares lost was really deleted.
   */
  lemma GapComesLast(steps: seq<Step>, id: nat)
    requires id in Execute(Empty, steps).subs && Receive(Execute(Empty, steps).subs[id]).1.Lost?
    ensures var s := Execute(Empty, steps);
            var u := s.subs[id];
            var g := Receive(u).1.gap;
            && u.handed == Out(u) && u.pending == []
            && g.requested == LastOf(u.handed, u.start)
            && (!g.ahead ==> forall e :: e in s.history && g.requested < e.seqNo < g.oldest
                                         ==> e.seqNo in s.retired || e.seqNo in s.purged)
  {
    RunKeepsInv(Empty, steps);
    var s := Execute(Empty, steps);
    var u := s.subs[id];
    assert SubInv(s.log, s.history, s.purged, u);
    assert Out(u) == u.handed;
    EveryEventIsSomewhere(s);
  }

  lemma EveryEventIsSomewhere(s: System)
    requires TableInv(s)
    ensures forall e :: e in s.history ==> e in s.log.rows || e.seqNo in s.retired || e.seqNo in s.purged
  {
    forall e | e in s.history ensures e in s.log.rows || e.seqNo in s.retired || e.seqNo in s.purged {
      var i :| 0 <= i < |s.history| && s.history[i] == e;
    }
  }

  /** An empty poll means the subscriber has caught up: nothing of its share is outstanding. */
  lemma EmptyPollMeansCaughtUp(steps: seq<Step>, id: nat)
    requires id in Execute(Empty, steps).subs
    requires var s := Execute(Empty, steps);
             var u := s.subs[id];
             u.pending == [] && u.gap.None? && !u.stopped && Fetch(u, s.log) == u
    ensures var s := Execute(Empty, steps);
            var u := s.subs[id];
            Complete(Out(u), s.history, s.purged, u, u.start, s.log.last)
  {
    RunKeepsInv(Empty, steps);
    var s := Execute(Empty, steps);
    var u := s.subs[id];
    SilentCheckClearsRetired(s, u.cursor);
    SelectShape(s.log.rows, u.cursor, u.ns, u.filter, BATCH);
  }

  // ---- Gaps -------------------------------------------------------------------------------------

  lemma RetainedSuffix(s: System)
    requires TableInv(s) && s.purged == {}
    ensures |s.log.rows| <= |s.history|
    ensures s.log.rows == s.history[|s.history| - |s.log.rows|..]
    ensures OldestOrNext(s.log) == s.log.last - |s.log.rows| + 1
  {
    var o := OldestOrNext(s.log);
    var tail := s.history[o - 1..];
    forall e | e in tail ensures e in s.log.rows {
      var i :| 0 <= i < |tail| && tail[i] == e;
      assert s.history[o - 1 + i] == e;
      if s.log.rows != [] {
        assert s.log.rows[0] in s.log.rows;
      }
    }
    forall e | e in s.log.rows ensures e in tail {
      assert OnRecord(s.history, e);
      assert s.log.rows[0].seqNo <= e.seqNo;
      assert tail[e.seqNo - o] == e;
    }
    OrderedUnique(s.log.rows, tail);
  }

  /**
   * Under retention alone the retained events are always a suffix of the history, and the gap
   * check is exact: it fires iff something after the cursor was deleted, the range it reports is
   * precisely what was deleted, and resuming where it says sees all that is left without a gap.
   */
  lemma GapIsExactUnderRetention(steps: seq<Step>, cursor: int)
    requires Execute(Empty, steps).purged == {} && 0 <= cursor <= Execute(Empty, steps).log.last
    ensures var s := Execute(Empty, steps);
            var g := GapCheck(s.log, cursor);
            && |s.log.rows| <= |s.history|
            && s.log.rows == s.history[|s.history| - |s.log.rows|..]
            && (g.Some? <==> exists q :: q in s.retired && cursor < q)
            && (g.Some? ==>
                  && !g.value.ahead
                  && (forall q :: q in s.retired && cursor < q <==> cursor < q < g.value.oldest)
                  && GapCheck(s.log, g.value.resume).None?
                  && forall e :: e in s.log.rows ==> g.value.resume < e.seqNo)
  {
    RunKeepsInv(Empty, steps);
    var s := Execute(Empty, steps);
    RetainedSuffix(s);
    RetiredIsThePrefix(s);
    GapIsExact(s.log, s.retired, cursor);
  }

  lemma GapIsExact(log: Log, retired: set<int>, cursor: int)
    requires ValidLog(log) && 0 <= cursor <= log.last
    requires forall q :: q in retired <==> 1 <= q < OldestOrNext(log)
    ensures var g := GapCheck(log, cursor);
            && (g.Some? <==> exists q :: q in retired && cursor < q)
            && (g.Some? ==>
                  && !g.value.ahead
                  && (forall q :: q in retired && cursor < q <==> cursor < q < g.value.oldest)
                  && GapCheck(log, g.value.resume).None?
                  && forall e :: e in log.rows ==> g.value.resume < e.seqNo)
  {
    if GapCheck(log, cursor).Some? {
      assert OldestOrNext(log) - 1 in retired;
    }
  }

  lemma RetiredIsThePrefix(s: System)
    requires TableInv(s) && s.purged == {}
    ensures forall q :: q in s.retired <==> 1 <= q < OldestOrNext(s.log)
  {
    RetainedSuffix(s);
    forall q | q in s.retired ensures q < OldestOrNext(s.log) {
      if s.log.rows != [] {
        assert s.log.rows[0] in s.log.rows;
      }
    }
    forall q | 1 <= q < OldestOrNext(s.log) ensures q in s.retired {
      assert s.history[q - 1].seqNo == q;
      assert forall i :: 0 < i < |s.log.rows| ==> s.log.rows[0].seqNo < s.log.rows[i].seqNo;
    }
  }

  /** A watch or a poll at this cursor reports q lost. */
  predicate Reports(log: Log, cursor: int, q: int) {
    GapCheck(log, cursor).Some? && cursor < q < GapCheck(log, cursor).value.oldest
  }

  ghost predicate Deleted(s: System, q: int) {
    q in s.retired || q in s.purged
  }

  /** With admin deletes as well, a deletion after the cursor is reported exactly when nothing before it is retained. */
  lemma ReportedIffNothingBelow(steps: seq<Step>, cursor: int, q: int)
    requires 0 <= cursor <= Execute(Empty, steps).log.last
    requires cursor < q && Deleted(Execute(Empty, steps), q)
    ensures var s := Execute(Empty, steps);
            Reports(s.log, cursor, q) <==> forall e :: e in s.log.rows ==> q < e.seqNo
  {
    RunKeepsInv(Empty, steps);
    DeletionIsReported(Execute(Empty, steps), cursor, q);
  }

  lemma DeletionIsReported(s: System, cursor: int, q: int)
    requires TableInv(s) && 0 <= cursor <= s.log.last && cursor < q && Deleted(s, q)
    ensures Reports(s.log, cursor, q) <==> forall e :: e in s.log.rows ==> q < e.seqNo
  {
    if s.log.rows != [] {
      assert s.log.rows[0] in s.log.rows;
      assert forall i :: 0 < i < |s.log.rows| ==> s.log.rows[0].seqNo < s.log.rows[i].seqNo;
      assert q != s.log.rows[0].seqNo;
    }
  }

  /**
   * A subscriber at the cursor is told of everything it lost exactly when no admin delete after its
   * cursor left a retained event below the purged one. Retention alone never does.
   */
  lemma GapsAreCompleteUnlessHoles(steps: seq<Step>, cursor: int)
    requires 0 <= cursor <= Execute(Empty, steps).log.last
    ensures var s := Execute(Empty, steps);
            (forall q :: cursor < q && Deleted(s, q) ==> Reports(s.log, cursor, q))
            <==> forall q, e :: q in s.purged && cursor < q && e in s.log.rows ==> q < e.seqNo
  {
    RunKeepsInv(Empty, steps);
    var s := Execute(Empty, steps);
    forall q | cursor < q && Deleted(s, q)
      ensures Reports(s.log, cursor, q) <==> forall e :: e in s.log.rows ==> q < e.seqNo
    {
      DeletionIsReported(s, cursor, q);
    }
    assert forall q :: q in s.purged || q in s.retired ==> Deleted(s, q);
    if forall q :: cursor < q && Deleted(s, q) ==> Reports(s.log, cursor, q) {
      forall q, e | q in s.purged && cursor < q && e in s.log.rows ensures q < e.seqNo {
        assert Reports(s.log, cursor, q);
      }
    }
  }

  /**
   * The smallest hole: event 2 of 3 is purged before a subscriber from the start polls. It is handed
   * events 1 and 3, its cursor moves past 2, and no gap is reported at any point.
   */
  lemma PurgedHoleIsSilent()
    ensures var a := Draft("a", "x");
            var s := Execute(Empty, [Watch(0, "n", Everything, None), Notify([a, a, a], "n", 0), PurgeEvent(2)]
                                    + [Poll(0)] + [HandOver(0)] + [HandOver(0)]);
            && 2 in s.purged && 0 in s.subs
            && Out(s.subs[0]) == [Event(1, "a", "n", "x", 0), Event(3, "a", "n", "x", 0)]
            && s.subs[0].cursor == 3 && s.subs[0].gap.None?
            && !Reports(s.log, 0, 2) && !Reports(s.log, 1, 2)
  {
    var a := Draft("a", "x");
    var steps := [Watch(0, "n", Everything, None), Notify([a, a, a], "n", 0), PurgeEvent(2)];
    HoleIsMade(a);
    OneMoreStep(Empty, steps, Poll(0));
    OneMoreStep(Empty, steps + [Poll(0)], HandOver(0));
    OneMoreStep(Empty, steps + [Poll(0)] + [HandOver(0)], HandOver(0));
  }

  lemma OneMoreStep(s: System, steps: seq<Step>, step: Step)
    ensures Execute(s, steps + [step]) == Next(Execute(s, steps), step)
  {
    assert (steps + [step])[..|steps|] == steps;
  }

  /** The table and the subscriber when the purge has run. */
  lemma HoleIsMade(a: Draft)
    requires a == Draft("a", "x")
    ensures var s := Execute(Empty, [Watch(0, "n", Everything, None), Notify([a, a, a], "n", 0), PurgeEvent(2)]);
            && s.log == Log([Event(1, "a", "n", "x", 0), Event(3, "a", "n", "x", 0)], 3)
            && 2 in s.purged
            && s.subs == map[0 := Sub("n", Everything, 0, 0, [], [], [], None, false)]
  {
    var watch, publish, purge := Watch(0, "n", Everything, None), Notify([a, a, a], "n", 0), PurgeEvent(2);
    assert [watch, publish, purge][..2] == [watch, publish] && [watch, publish][..1] == [watch] && [watch][..0] == [];
    var s1 := Next(Empty, watch);
    assert Execute(Empty, [watch]) == s1 && s1.log == Log([], 0);
    var e1, e2, e3 := Event(1, "a", "n", "x", 0), Event(2, "a", "n", "x", 0), Event(3, "a", "n", "x", 0);
    ThreeDrafts(a);
    var s2 := Next(s1, publish);
    assert s2.log.rows == [e1, e2, e3];
    assert [e1, e2, e3][1..] == [e2, e3] && [e2, e3][1..] == [e3];
    assert DeleteFirst([e3], Exactly(2), 499) == [e3];
    assert DeleteFirst([e2, e3], Exactly(2), 500) == [e3];
    assert DeleteFirst([e1, e2, e3], Exactly(2), 500) == [e1, e3];
    assert e2 in [e1, e2, e3];
    assert 2 in Seqs([e1, e2, e3]);
    assert 2 !in Seqs([e1, e3]);
  }

  lemma ThreeDrafts(a: Draft)
    ensures PublishAll(Log([], 0), [a, a, a], "n", 0)
            == Log([Event(1, a.channel, "n", a.payload, 0), Event(2, a.channel, "n", a.payload, 0),
                    Event(3, a.channel, "n", a.payload, 0)], 3)
  {
    assert [a, a, a][..2] == [a, a] && [a, a][..1] == [a] && [a][..0] == [];
    assert PublishAll(Log([], 0), [a], "n", 0) == Log([Event(1, a.channel, "n", a.payload, 0)], 1);
    assert PublishAll(Log([], 0), [a, a], "n", 0).last == 2;
  }

  /** Neither in the table nor anywhere on a subscriber's way. */
  ghost predicate OutOfReach(s: System, q: int, id: nat) {
    && q <= s.log.last && q !in Seqs(s.log.rows)
    && (id in s.subs ==> q !in Seqs(s.subs[id].pending) && q !in Seqs(Out(s.subs[id])))
  }

  lemma StepKeepsOutOfReach(s: System, step: Step, q: int, id: nat)
    requires Inv(s) && OutOfReach(s, q, id)
    ensures OutOfReach(Next(s, step), q, id)
  {
    StepMovesRows(s, step);
    RowsStayWithout(s.log, Next(s, step).log, q);
    SubsStayWithout(s, step, q, id);
  }

  lemma RowsStayWithout(was: Log, now: Log, q: int)
    requires q <= was.last <= now.last && q !in Seqs(was.rows)
    requires forall e :: e in now.rows ==> e in was.rows || was.last < e.seqNo
    ensures q <= now.last && q !in Seqs(now.rows)
  {
  }

  lemma SubsStayWithout(s: System, step: Step, q: int, id: nat)
    requires Ordered(s.log.rows) && q !in Seqs(s.log.rows)
    requires id in s.subs ==> q !in Seqs(s.subs[id].pending) && q !in Seqs(Out(s.subs[id]))
    ensures var t := Next(s, step); id in t.subs ==> q !in Seqs(t.subs[id].pending) && q !in Seqs(Out(t.subs[id]))
  {
    if id in s.subs {
      SubStepStaysInReach(s.subs[id], s.log, q);
    }
  }

  /** A subscriber only ever takes on what the table holds, and only passes on what it has. */
  lemma SubStepStaysInReach(u: Sub, log: Log, q: int)
    requires Ordered(log.rows) && q !in Seqs(log.rows) && q !in Seqs(u.pending) && q !in Seqs(Out(u))
    ensures q !in Seqs(Fetch(u, log).pending) && Out(Fetch(u, log)) == Out(u)
    ensures q !in Seqs(Send(u).pending) && q !in Seqs(Out(Send(u)))
    ensures Receive(u).0.pending == u.pending && Out(Receive(u).0) == Out(u)
    ensures Out(Stop(u)) == Out(u)
  {
    SelectShape(log.rows, u.cursor, u.ns, u.filter, BATCH);
    if u.pending != [] && |u.channel| < QUEUE {
      assert u.pending[0] in u.pending;
      assert Out(Send(u)) == Out(u) + [u.pending[0]];
    }
    if u.channel != [] {
      assert u.channel == [u.channel[0]] + u.channel[1..];
      assert Out(Receive(u).0) == Out(u);
    }
  }

  lemma {:induction false} RunKeepsOutOfReach(s: System, steps: seq<Step>, q: int, id: nat)
    requires Inv(s) && OutOfReach(s, q, id)
    ensures OutOfReach(Execute(s, steps), q, id)
    decreases |steps|
  {
    if steps != [] {
      RunKeepsOutOfReach(s, steps[..|steps| - 1], q, id);
      RunKeepsInv(s, steps[..|steps| - 1]);
      StepKeepsOutOfReach(Execute(s, steps[..|steps| - 1]), steps[|steps| - 1], q, id);
    }
  }

  /** An event purged before a subscriber had fetched it is never delivered to it, whatever happens next. */
  lemma PurgedBeforeFetchedIsNeverDelivered(before: seq<Step>, after: seq<Step>, q: int, id: nat)
    requires var s := Execute(Empty, before);
             q in s.purged && (id in s.subs ==> q !in Seqs(s.subs[id].pending) && q !in Seqs(Out(s.subs[id])))
    ensures var t := Execute(Execute(Empty, before), after);
            id in t.subs ==> q !in Seqs(Out(t.subs[id]))
  {
    RunKeepsInv(Empty, before);
    RunKeepsOutOfReach(Execute(Empty, before), after, q, id);
  }

  // ---- Sweeps -----------------------------------------------------------------------------------

  /** Along any run, a retained row was retained before or is newer than anything assigned then. */
  lemma {:induction false} RowsComeFromBefore(s: System, steps: seq<Step>)
    requires Inv(s)
    ensures var t := Execute(s, steps);
            s.log.last <= t.log.last && forall e :: e in t.log.rows ==> e in s.log.rows || s.log.last < e.seqNo
    decreases |steps|
  {
    if steps != [] {
      RowsComeFromBefore(s, steps[..|steps| - 1]);
      RunKeepsInv(s, steps[..|steps| - 1]);
      StepMovesRows(Execute(s, steps[..|steps| - 1]), steps[|steps| - 1]);
    }
  }

  lemma StepMovesRows(s: System, step: Step)
    requires Inv(s)
    ensures var t := Next(s, step);
            s.log.last <= t.log.last && forall e :: e in t.log.rows ==> e in s.log.rows || s.log.last < e.seqNo
  {
    match step
    case Notify(drafts, ns, now) => NotifyKeepsTable(s, drafts, ns, now);
    case SweepBatch(id) => if id in s.sweepers { SweepKeepsTable(s, id); }
    case PurgeEvent(q) => PurgeKeepsTable(s, Exactly(q));
    case PurgeChannelBatch(channel) => PurgeKeepsTable(s, OnChannel(channel));
    case _ =>
  }

  ghost predicate FinishesSweep(s: System, id: nat) {
    id in s.sweepers && s.sweepers[id].Some?
    && |s.log.rows| - |DeleteFirst(s.log.rows, UpTo(s.sweepers[id].value), BATCH)| < BATCH
  }

  lemma FinishedSweepClears(s: System, id: nat)
    requires Inv(s) && FinishesSweep(s, id)
    ensures forall e :: e in Next(s, SweepBatch(id)).log.rows ==> s.sweepers[id].value < e.seqNo
  {
    var bound := s.sweepers[id].value;
    DeleteFirstShape(s.log.rows, UpTo(bound), BATCH);
    KeepShape(s.log.rows, UpTo(bound));
  }

  /**
   * However publishers, other sweepers with other bounds, admins and subscribers interleave, once a
   * sweep has finished nothing it was asked to delete is ever retained again.
   */
  lemma FinishedSweepIsFinal(before: seq<Step>, id: nat, after: seq<Step>)
    requires FinishesSweep(Execute(Empty, before), id)
    ensures var s := Execute(Empty, before);
            forall e :: e in Execute(Next(s, SweepBatch(id)), after).log.rows ==> s.sweepers[id].value < e.seqNo
  {
    RunKeepsInv(Empty, before);
    SweepStaysFinal(Execute(Empty, before), id, after);
  }

  lemma SweepStaysFinal(s: System, id: nat, after: seq<Step>)
    requires Inv(s) && FinishesSweep(s, id)
    ensures forall e :: e in Execute(Next(s, SweepBatch(id)), after).log.rows ==> s.sweepers[id].value < e.seqNo
  {
    FinishedSweepClears(s, id);
    StepKeepsInv(s, SweepBatch(id));
    RowsComeFromBefore(Next(s, SweepBatch(id)), after);
  }

  /** Distinct seqs: an ordered list has as many seqs as rows. */
  lemma {:induction false} SeqsCount(rows: seq<Event>)
    requires Ordered(rows)
    ensures |Seqs(rows)| == |rows|
  {
    if rows != [] {
      SeqsCount(rows[1..]);
      assert rows == [rows[0]] + rows[1..];
      assert Seqs(rows) == {rows[0].seqNo} + Seqs(rows[1..]);
      assert rows[0].seqNo !in Seqs(rows[1..]);
    }
  }

  lemma {:induction false} RangeCount(low: int, high: int, qs: set<int>)
    requires low <= high && forall q :: q in qs ==> low < q <= high
    ensures |qs| <= high - low
    decreases high - low
  {
    if low == high {
      assert forall q :: q !in qs;
      assert qs == {};
    } else {
      RangeCount(low, high - 1, qs - {high});
    }
  }

  /** No smaller bound, and none only where there was none. */
  predicate NoLower(a: Option<int>, b: Option<int>) {
    a.Some? ==> b.Some? && a.value <= b.value
  }

  /** The sweeper is at work after every part of the run: its pass has not ended yet. */
  ghost predicate AtWork(s: System, steps: seq<Step>, id: nat) {
    forall k :: 0 <= k <= |steps| ==> id in Execute(s, steps[..k]).sweepers
  }

  /** A sweeper at work never lowers its bound. */
  lemma {:induction false} BoundNeverFalls(s: System, steps: seq<Step>, id: nat)
    requires AtWork(s, steps, id)
    ensures id in s.sweepers && id in Execute(s, steps).sweepers
    ensures NoLower(s.sweepers[id], Execute(s, steps).sweepers[id])
    decreases |steps|
  {
    assert steps[..|steps|] == steps;
    if steps != [] {
      var front := steps[..|steps| - 1];
      forall k | 0 <= k <= |front| ensures id in Execute(s, front[..k]).sweepers {
        assert front[..k] == steps[..k];
      }
      BoundNeverFalls(s, front, id);
    } else {
      assert Execute(s, steps[..0]) == s;
    }
  }

  /** Its last batch comes back short, or it has nothing to delete. */
  ghost predicate EndsSweep(s: System, id: nat) {
    id in s.sweepers && (s.sweepers[id].None? || FinishesSweep(s, id))
  }

  /**
   * A sweep that has read the count bound for a cap n keeps, when it ends, at most the n newest of then
   * plus what was published since, whatever other sweepers, admins and publishers did in between.
   */
  lemma FinishedSweepHonoursCap(before: seq<Step>, n: nat, between: seq<Step>, id: nat)
    requires n > 0 && id in Execute(Empty, before).sweepers
    requires var s := Next(Execute(Empty, before), SweepCap(id, n));
             AtWork(s, between, id) && EndsSweep(Execute(s, between), id)
    ensures var s0 := Execute(Empty, before);
            var t := Next(Execute(Next(s0, SweepCap(id, n)), between), SweepBatch(id));
            |t.log.rows| <= n + (t.log.last - s0.log.last)
  {
    RunKeepsInv(Empty, before);
    var s0 := Execute(Empty, before);
    var s := Next(s0, SweepCap(id, n));
    StepKeepsInv(s0, SweepCap(id, n));
    BoundNeverFalls(s, between, id);
    if Execute(s, between).sweepers[id].None? {
      NothingToSweep(s, n, between, id);
    } else {
      CapHolds(s, n, between, id);
    }
  }

  /** A sweep without a bound deletes nothing, as there were no more than n events. */
  lemma NothingToSweep(s0: System, n: nat, between: seq<Step>, id: nat)
    requires Inv(s0) && |s0.log.rows| <= n
    requires var s := Execute(s0, between); id in s.sweepers && s.sweepers[id].None?
    ensures var t := Next(Execute(s0, between), SweepBatch(id));
            |t.log.rows| <= n + (t.log.last - s0.log.last)
  {
    RunKeepsInv(s0, between);
    RowsComeFromBefore(s0, between);
    SurvivorsAreFew(s0.log, Execute(s0, between).log, n);
  }

  lemma CapHolds(s0: System, n: nat, between: seq<Step>, id: nat)
    requires n > 0 && Inv(s0) && FinishesSweep(Execute(s0, between), id)
    requires n < |s0.log.rows| ==> CapBound(s0.log.rows, n).value <= Execute(s0, between).sweepers[id].value
    ensures var t := Next(Execute(s0, between), SweepBatch(id));
            |t.log.rows| <= n + (t.log.last - s0.log.last)
  {
    RunKeepsInv(s0, between);
    var s := Execute(s0, between);
    var t := Next(s, SweepBatch(id));
    RowsComeFromBefore(s0, between);
    FinishedSweepClears(s, id);
    StepKeepsInv(s, SweepBatch(id));
    StepMovesRows(s, SweepBatch(id));
    SurvivorsAreFew(s0.log, t.log, n);
  }

  lemma SurvivorsAreFew(was: Log, now: Log, n: nat)
    requires ValidLog(was) && ValidLog(now) && was.last <= now.last
    requires forall e :: e in now.rows ==> e in was.rows || was.last < e.seqNo
    requires n < |was.rows| ==> forall e :: e in now.rows ==> CapBound(was.rows, n).value < e.seqNo
    ensures |now.rows| <= n + (now.last - was.last)
  {
    var kept := was.rows[Max(|was.rows| - n, 0)..];
    var added := set q | q in Seqs(now.rows) && was.last < q;
    OldSurvivorsAreKept(was.rows, now.rows, n);
    KeptOrAdded(was, now.rows, kept, added);
    AddedCount(was.last, now, added);
    SeqsCount(now.rows);
    SeqsCount(kept);
    CountWithin(Seqs(now.rows), Seqs(kept), added);
  }

  lemma KeptOrAdded(was: Log, now: seq<Event>, kept: seq<Event>, added: set<int>)
    requires forall e :: e in now ==> e in was.rows || was.last < e.seqNo
    requires forall e :: e in now && e in was.rows ==> e in kept
    requires added == set q | q in Seqs(now) && was.last < q
    ensures Seqs(now) <= Seqs(kept) + added
  {
    forall q | q in Seqs(now) ensures q in Seqs(kept) + added {
      var e :| e in now && e.seqNo == q;
    }
  }

  lemma AddedCount(low: int, now: Log, added: set<int>)
    requires ValidLog(now) && low <= now.last && added == set q | q in Seqs(now.rows) && low < q
    ensures |added| <= now.last - low
  {
    forall q | q in added ensures low < q <= now.last {
      var e :| e in now.rows && e.seqNo == q;
    }
    RangeCount(low, now.last, added);
  }

  lemma OldSurvivorsAreKept(was: seq<Event>, now: seq<Event>, n: nat)
    requires Ordered(was)
    requires n < |was| ==> forall e :: e in now ==> CapBound(was, n).value < e.seqNo
    ensures forall e :: e in now && e in was ==> e in was[Max(|was| - n, 0)..]
  {
    var k := Max(|was| - n, 0);
    forall e | e in now && e in was ensures e in was[k..] {
      var i :| 0 <= i < |was| && was[i] == e;
      assert k <= i;
      assert was[k..][i - k] == e;
    }
  }

  lemma CountWithin(a: set<int>, b: set<int>, c: set<int>)
    requires a <= b + c
    ensures |a| <= |b| + |c|
  {
    var d := b + c;
    assert d == a + (d - a);
    assert d == b + (c - b) && c == (c - b) + (c * b);
  }
}
