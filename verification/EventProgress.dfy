/** The protocol gets somewhere: a subscriber that keeps polling catches up, and a sweep comes to its end. */
module EventProgress {
  import opened Prelude
  import opened ChannelFilter
  import opened EventLog
  import opened Subscription
  import opened EventProtocol
  import EventGuarantees

  // ---- Runs in parts ----------------------------------------------------------------------------

  lemma {:induction false} RunsCompose(s: System, first: seq<Step>, rest: seq<Step>)
    ensures Execute(s, first + rest) == Execute(Execute(s, first), rest)
    decreases |rest|
  {
    if rest == [] {
      assert first + rest == first;
    } else {
      RunsCompose(s, first, rest[..|rest| - 1]);
      assert (first + rest)[..|first + rest| - 1] == first + rest[..|rest| - 1];
    }
  }

  lemma FirstStep(s: System, step: Step, rest: seq<Step>)
    ensures Execute(s, [step] + rest) == Execute(Next(s, step), rest)
  {
    RunsCompose(s, [step], rest);
    assert [step][..0] == [];
    assert Execute(s, [step]) == Next(s, step);
  }

  // ---- Catching up --------------------------------------------------------------------------------

  /** What a subscriber does next: it receives, else hands over, else polls. */
  function Work(u: Sub, log: Log): Sub {
    if u.channel != [] then Receive(u).0 else if u.pending != [] then Send(u) else Fetch(u, log)
  }

  function Worked(u: Sub, log: Log, n: nat): Sub
    decreases n
  {
    if n == 0 then u else Worked(Work(u, log), log, n - 1)
  }

  /** All it wanted of what is retained past its start has been received, and nothing is on its way. */
  ghost predicate CaughtUp(log: Log, u: Sub) {
    && u.gap.None? && u.channel == [] && u.pending == []
    && forall e :: e in log.rows && u.start < e.seqNo && Wanted(u.ns, u.filter, e) ==> e in u.handed
  }

  /** A gap is the next thing it is told: one that was there before, or one that its check finds. */
  ghost predicate AtGap(log: Log, before: Sub, u: Sub) {
    && u.channel == [] && u.gap.Some?
    && (before.gap.None? ==> u.gap == GapCheck(log, u.cursor))
  }

  /** It is still the same watch, and has received and passed no less. */
  ghost predicate Further(u: Sub, v: Sub) {
    && v.ns == u.ns && v.filter == u.filter && v.start == u.start && v.stopped == u.stopped
    && u.handed <= v.handed && u.cursor <= v.cursor
  }

  lemma NothingToFetch(s: System, u: Sub)
    requires TableInv(s) && SubInv(s.log, s.history, s.purged, u)
    requires u.channel == [] && u.pending == [] && u.gap.None? && !u.stopped && Fetch(u, s.log) == u
    ensures CaughtUp(s.log, u)
  {
    SelectShape(s.log.rows, u.cursor, u.ns, u.filter, BATCH);
    assert Select(s.log.rows, u.cursor, u.ns, u.filter, BATCH) == [];
    assert Out(u) == u.handed;
    forall e | e in s.log.rows && u.start < e.seqNo && Wanted(u.ns, u.filter, e) ensures e in u.handed {
      assert OnRecord(s.history, e) && e.seqNo !in s.purged;
      assert e in s.history && e.seqNo <= u.cursor;
    }
  }

  lemma Receives(log: Log, history: seq<Event>, purged: set<int>, u: Sub)
    requires SubInv(log, history, purged, u) && u.channel != []
    ensures var v := Work(u, log);
            && SubInv(log, history, purged, v) && Further(u, v)
            && v.gap == u.gap && v.cursor == u.cursor && v.pending == u.pending && |v.channel| < |u.channel|
  {
    ReceiveIsGood(log, history, purged, u);
  }

  lemma HandsOn(s: System, u: Sub)
    requires TableInv(s) && SubInv(s.log, s.history, s.purged, u) && u.channel == [] && u.pending != []
    ensures var v := Work(u, s.log);
            && SubInv(s.log, s.history, s.purged, v) && Further(u, v)
            && v.gap == u.gap && u.cursor < v.cursor <= s.log.last
  {
    SendIsGood(s.log, s.history, s.purged, u);
    assert u.pending[0] in u.pending && OnRecord(s.history, u.pending[0]);
  }

  lemma Polls(s: System, u: Sub)
    requires TableInv(s) && SubInv(s.log, s.history, s.purged, u) && u.channel == [] && u.pending == []
    requires u.gap.None? && !u.stopped && Fetch(u, s.log) != u
    ensures var v := Work(u, s.log);
            && SubInv(s.log, s.history, s.purged, v) && Further(u, v) && v.cursor == u.cursor && v.channel == []
            && (v.gap.Some? ==> v.gap == GapCheck(s.log, v.cursor))
            && (v.gap.None? ==> v.pending != [])
  {
    FetchIsGood(s, u);
  }

  /** Either it has everything, or a gap is next. */
  ghost predicate Finished(log: Log, before: Sub, u: Sub) {
    Further(before, u) && (CaughtUp(log, u) || AtGap(log, before, u))
  }

  /** How far a subscriber is from its end. */
  function Distance(log: Log, u: Sub): (nat, nat, nat) {
    (Max(log.last - u.cursor, 0), |u.channel|, if u.pending == [] then 1 else 0)
  }

  predicate Nearer(a: (nat, nat, nat), b: (nat, nat, nat)) {
    a.0 < b.0 || (a.0 == b.0 && (a.1 < b.1 || (a.1 == b.1 && a.2 < b.2)))
  }

  /** One piece of work brings a subscriber nearer to its end, or to a gap. */
  lemma WorkHelps(s: System, u: Sub)
    requires TableInv(s) && SubInv(s.log, s.history, s.purged, u) && !u.stopped
    requires u.channel != [] || u.pending != [] || (u.gap.None? && Fetch(u, s.log) != u)
    ensures var v := Work(u, s.log);
            && SubInv(s.log, s.history, s.purged, v) && Further(u, v)
            && (Nearer(Distance(s.log, v), Distance(s.log, u)) || AtGap(s.log, u, v))
            && (u.gap.None? ==> v.gap.None? || AtGap(s.log, u, v))
  {
    if u.channel != [] {
      Receives(s.log, s.history, s.purged, u);
    } else if u.pending != [] {
      HandsOn(s, u);
    } else {
      Polls(s, u);
    }
  }

  lemma {:induction false} WorksOff(s: System, u: Sub) returns (n: nat)
    requires TableInv(s) && SubInv(s.log, s.history, s.purged, u) && !u.stopped
    ensures Finished(s.log, u, Worked(u, s.log, n))
    decreases Distance(s.log, u).0, Distance(s.log, u).1, Distance(s.log, u).2
  {
    if u.channel == [] && u.pending == [] && (u.gap.Some? || Fetch(u, s.log) == u) {
      n := 0;
      if u.gap.None? {
        NothingToFetch(s, u);
      }
    } else {
      var v := Work(u, s.log);
      WorkHelps(s, u);
      if AtGap(s.log, u, v) {
        n := 1;
        assert Worked(v, s.log, 0) == v;
      } else {
        var m := WorksOff(s, v);
        n := m + 1;
      }
    }
  }

  /** Nothing but the subscriber's own polls, hand-overs and receives. */
  ghost predicate Alone(steps: seq<Step>, id: nat) {
    forall i :: 0 <= i < |steps| ==> steps[i] in {Step.Poll(id), HandOver(id), TakeNext(id)}
  }

  lemma {:induction false} WorkIsSteps(s: System, id: nat, n: nat) returns (more: seq<Step>)
    requires id in s.subs
    ensures Alone(more, id)
    ensures Execute(s, more) == s.(subs := s.subs[id := Worked(s.subs[id], s.log, n)])
    decreases n
  {
    var u := s.subs[id];
    if n == 0 {
      more := [];
      assert s.subs[id := u] == s.subs;
    } else {
      var step := if u.channel != [] then TakeNext(id) else if u.pending != [] then HandOver(id) else Step.Poll(id);
      var t := s.(subs := s.subs[id := Work(u, s.log)]);
      assert Next(s, step) == t;
      var rest := WorkIsSteps(t, id, n - 1);
      more := [step] + rest;
      FirstStep(s, step, rest);
      assert t.subs[id := Worked(Work(u, s.log), s.log, n - 1)] == s.subs[id := Worked(u, s.log, n)];
    }
  }

  /**
   * After any run, a subscriber that was not closed can, by its own steps alone, receive everything it
   * wanted that is retained past its start, or be told of a gap.
   */
  lemma CatchesUp(steps: seq<Step>, id: nat) returns (more: seq<Step>)
    requires var s := Execute(Empty, steps); id in s.subs && !s.subs[id].stopped
    ensures Alone(more, id)
    ensures var s, t := Execute(Empty, steps), Execute(Empty, steps + more);
            t.log == s.log && id in t.subs && Finished(s.log, s.subs[id], t.subs[id])
  {
    var s := Execute(Empty, steps);
    RunKeepsInv(Empty, steps);
    var n := WorksOff(s, s.subs[id]);
    more := WorkIsSteps(s, id, n);
    RunsCompose(Empty, steps, more);
  }

  /** The subscriber is at no gap and has received what its namespace and filter let through of a publish. */
  ghost predicate Arrived(t: System, id: nat, drafts: seq<Draft>, from: string, now: int, last: int) {
    && id in t.subs && t.subs[id].gap.None?
    && forall i :: 0 <= i < |drafts| && from == t.subs[id].ns && Accepts(t.subs[id].filter, drafts[i].channel) ==>
         Event(last + 1 + i, drafts[i].channel, from, drafts[i].payload, now) in t.subs[id].handed
  }

  lemma AllArrive(run: seq<Step>, id: nat, before: Log, ns: string, filter: Filter, drafts: seq<Draft>, from: string,
                  now: int) returns (more: seq<Step>)
    requires ValidLog(before) && Execute(Empty, run).log == PublishAll(before, drafts, from, now)
    requires id in Execute(Empty, run).subs && Execute(Empty, run).subs[id] == Open(before, ns, filter, None)
    ensures Alone(more, id)
    ensures var t := Execute(Empty, run + more);
            Arrived(t, id, drafts, from, now, before.last) && t.subs[id].ns == ns && t.subs[id].filter == filter
  {
    more := CatchesUp(run, id);
    CursorIsWithin(run + more, id);
    var t := Execute(Empty, run + more);
    WithoutGap(before, t.log, ns, filter, drafts, from, now, t.subs[id]);
    ReceivesAll(before, t.log, drafts, from, now, t.subs[id]);
  }

  /**
   * What is published once a watch has begun is received by it: after any run, a new watch from now and
   * a publish, the subscriber alone can get to where it has received every event of the publish that its
   * namespace and filter let through, without a gap.
   */
  lemma PublishedIsReceived(steps: seq<Step>, id: nat, ns: string, filter: Filter, drafts: seq<Draft>, from: string,
                            now: int) returns (more: seq<Step>)
    requires id !in Execute(Empty, steps).subs
    ensures Alone(more, id)
    ensures var t := Execute(Empty, steps + [Watch(id, ns, filter, None), Notify(drafts, from, now)] + more);
            && Arrived(t, id, drafts, from, now, Execute(Empty, steps).log.last)
            && t.subs[id].ns == ns && t.subs[id].filter == filter
  {
    WatchThenNotify(steps, id, ns, filter, drafts, from, now);
    LogIsValid(steps);
    more := AllArrive(steps + [Watch(id, ns, filter, None), Notify(drafts, from, now)], id,
                      Execute(Empty, steps).log, ns, filter, drafts, from, now);
  }

  lemma WithoutGap(before: Log, after: Log, ns: string, filter: Filter, drafts: seq<Draft>, from: string, now: int,
                   u: Sub)
    requires ValidLog(before) && after == PublishAll(before, drafts, from, now)
    requires Finished(after, Open(before, ns, filter, None), u)
    requires u.cursor <= after.last || u.cursor == u.start
    ensures CaughtUp(after, u) && u.start == before.last && u.ns == ns && u.filter == filter
  {
    PublishedIsThere(before, after, drafts, from, now, u.cursor);
    PublishAllShape(before, drafts, from, now);
  }

  lemma ReceivesAll(before: Log, after: Log, drafts: seq<Draft>, from: string, now: int, u: Sub)
    requires ValidLog(before) && after == PublishAll(before, drafts, from, now)
    requires CaughtUp(after, u) && u.start == before.last
    ensures forall i :: 0 <= i < |drafts| && from == u.ns && Accepts(u.filter, drafts[i].channel) ==>
              Event(before.last + 1 + i, drafts[i].channel, from, drafts[i].payload, now) in u.handed
  {
    PublishedIsThere(before, after, drafts, from, now, u.cursor);
    forall i | 0 <= i < |drafts| && from == u.ns && Accepts(u.filter, drafts[i].channel)
      ensures Event(before.last + 1 + i, drafts[i].channel, from, drafts[i].payload, now) in u.handed
    {
      assert Wanted(u.ns, u.filter, after.rows[|before.rows| + i]);
    }
  }

  lemma LogIsValid(steps: seq<Step>)
    ensures ValidLog(Execute(Empty, steps).log)
  {
    RunKeepsInv(Empty, steps);
  }

  lemma CursorIsWithin(steps: seq<Step>, id: nat)
    ensures var s := Execute(Empty, steps);
            id in s.subs ==> s.subs[id].cursor <= s.log.last || s.subs[id].cursor == s.subs[id].start
  {
    RunKeepsInv(Empty, steps);
  }

  lemma WatchThenNotify(steps: seq<Step>, id: nat, ns: string, filter: Filter, drafts: seq<Draft>, from: string,
                        now: int)
    requires id !in Execute(Empty, steps).subs
    ensures var s := Execute(Empty, steps);
            var t := Execute(Empty, steps + [Watch(id, ns, filter, None), Notify(drafts, from, now)]);
            && t.log == PublishAll(s.log, drafts, from, now)
            && id in t.subs && t.subs[id] == Open(s.log, ns, filter, None)
  {
    var s := Execute(Empty, steps);
    var watch, publish := Watch(id, ns, filter, None), Notify(drafts, from, now);
    RunsCompose(Empty, steps, [watch, publish]);
    assert [watch, publish] == [watch] + [publish] && [publish] == [publish] + [];
    FirstStep(s, watch, [publish]);
    FirstStep(Next(s, watch), publish, []);
  }

  /** The published events are the newest rows, and no cursor since then is at a gap. */
  lemma PublishedIsThere(before: Log, after: Log, drafts: seq<Draft>, from: string, now: int, cursor: int)
    requires ValidLog(before) && after == PublishAll(before, drafts, from, now)
    ensures before.last <= cursor <= after.last ==> GapCheck(after, cursor).None?
    ensures |after.rows| == |before.rows| + |drafts|
    ensures forall i :: 0 <= i < |drafts| ==>
              && after.rows[|before.rows| + i] in after.rows
              && after.rows[|before.rows| + i]
                 == Event(before.last + 1 + i, drafts[i].channel, from, drafts[i].payload, now)
  {
    PublishAllShape(before, drafts, from, now);
    if |before.rows| > 0 {
      assert after.rows[0] == before.rows[0];
    }
  }

  // ---- A sweep ends -----------------------------------------------------------------------------

  function Batches(id: nat, n: nat): seq<Step> {
    seq(n, i => SweepBatch(id))
  }

  lemma BatchTakes(rows: seq<Event>, bound: int)
    requires Ordered(rows)
    ensures var left := DeleteFirst(rows, UpTo(bound), BATCH);
            && |left| <= |rows|
            && (forall e :: e in left ==> e in rows)
            && (forall e :: e in rows && bound < e.seqNo ==> e in left)
            && (|rows| - |left| < BATCH ==> forall e :: e in left ==> bound < e.seqNo)
  {
    DeleteFirstShape(rows, UpTo(bound), BATCH);
    KeepShape(rows, UpTo(bound));
  }

  /** One batch: it takes rows up to the bound only, and goes on only after it took a full batch. */
  lemma BatchRule(s: System, id: nat)
    requires Ordered(s.log.rows) && id in s.sweepers && s.sweepers[id].Some?
    ensures var t := Next(s, SweepBatch(id)); var bound := s.sweepers[id].value;
            && t.subs == s.subs
            && (forall e :: e in t.log.rows ==> e in s.log.rows)
            && (forall e :: e in s.log.rows && bound < e.seqNo ==> e in t.log.rows)
            && (id in t.sweepers ==> t.sweepers[id] == s.sweepers[id] && |t.log.rows| < |s.log.rows|)
            && (id !in t.sweepers ==> forall e :: e in t.log.rows ==> bound < e.seqNo)
  {
    BatchTakes(s.log.rows, s.sweepers[id].value);
  }

  /** A sweeper's batches alone end its pass, and then exactly the rows past its bound are left. */
  lemma {:induction false} SweepEnds(s: System, id: nat) returns (n: nat)
    requires Inv(s) && id in s.sweepers && s.sweepers[id].Some?
    ensures var t := Execute(s, Batches(id, n));
            && id !in t.sweepers && t.subs == s.subs
            && forall e :: e in t.log.rows <==> e in s.log.rows && s.sweepers[id].value < e.seqNo
    decreases |s.log.rows|
  {
    var t := Next(s, SweepBatch(id));
    BatchRule(s, id);
    StepKeepsInv(s, SweepBatch(id));
    if id !in t.sweepers {
      n := 1;
      FirstStep(s, SweepBatch(id), []);
      assert Batches(id, 1) == [SweepBatch(id)] + [];
    } else {
      var rest := SweepEnds(t, id);
      n := rest + 1;
      FirstStep(s, SweepBatch(id), Batches(id, rest));
      assert Batches(id, n) == [SweepBatch(id)] + Batches(id, rest);
    }
  }

  /** One batch of a sweeper that found nothing to delete ends its pass and leaves the table alone. */
  lemma IdleSweepEnds(s: System, id: nat)
    requires id in s.sweepers && s.sweepers[id].None?
    ensures var t := Execute(s, Batches(id, 1)); id !in t.sweepers && t.log == s.log
  {
    FirstStep(s, SweepBatch(id), []);
    assert Batches(id, 1) == [SweepBatch(id)] + [];
  }

  /**
   * A pass that nobody disturbs does what retention promises: after any run, a sweeper that reads the age
   * bound and the cap's, and then deletes batch by batch, ends, and row i of the log stays exactly when
   * every row from i on was created after the cutoff and, under a cap, at most that many are from i on.
   */
  lemma SweepAloneIsExact(steps: seq<Step>, id: nat, cutoff: int, maxCount: nat) returns (n: nat)
    requires id !in Execute(Empty, steps).sweepers
    ensures var s := Execute(Empty, steps);
            var t := Execute(Empty, steps + [SweepAge(id, cutoff), SweepCap(id, maxCount)] + Batches(id, n));
            id !in t.sweepers && KeepsExactly(t.log.rows, s.log.rows, cutoff, maxCount)
  {
    var s := Execute(Empty, steps);
    var read := [SweepAge(id, cutoff), SweepCap(id, maxCount)];
    RunKeepsInv(Empty, steps);
    n := SweepsFrom(s, id, cutoff, maxCount);
    RunsCompose(s, read, Batches(id, n));
    RunsCompose(Empty, steps, read);
    RunsCompose(Empty, steps + read, Batches(id, n));
  }

  lemma SweepsFrom(s: System, id: nat, cutoff: int, maxCount: nat) returns (n: nat)
    requires Inv(s) && id !in s.sweepers
    ensures var t := Execute(Execute(s, [SweepAge(id, cutoff), SweepCap(id, maxCount)]), Batches(id, n));
            id !in t.sweepers && KeepsExactly(t.log.rows, s.log.rows, cutoff, maxCount)
  {
    var r := Execute(s, [SweepAge(id, cutoff), SweepCap(id, maxCount)]);
    RunKeepsInv(s, [SweepAge(id, cutoff), SweepCap(id, maxCount)]);
    BoundIsRead(s, id, cutoff, maxCount);
    RetainedKeepsExactly(s.log.rows, cutoff, maxCount);
    if r.sweepers[id].None? {
      n := 1;
      IdleSweepEnds(r, id);
    } else {
      n := SweepEnds(r, id);
      KeepShape(s.log.rows, UpTo(r.sweepers[id].value));
    }
  }

  lemma BoundIsRead(s: System, id: nat, cutoff: int, maxCount: nat)
    requires id !in s.sweepers
    ensures var r := Execute(s, [SweepAge(id, cutoff), SweepCap(id, maxCount)]);
            && r.log == s.log && id in r.sweepers
            && r.sweepers[id] == RetentionBound(s.log.rows, cutoff, maxCount)
  {
    var age, cap := SweepAge(id, cutoff), SweepCap(id, maxCount);
    assert [age, cap] == [age] + [cap] && [cap] == [cap] + [];
    FirstStep(s, age, [cap]);
    FirstStep(Next(s, age), cap, []);
  }

  // ---- After a close ------------------------------------------------------------------------------

  /** A closed subscription with nothing fetched is given nothing more, whatever happens. */
  lemma {:induction false} NothingMore(s: System, id: nat, after: seq<Step>)
    requires id in s.subs && s.subs[id].stopped && s.subs[id].pending == []
    ensures var t := Execute(s, after);
            id in t.subs && t.subs[id].stopped && t.subs[id].pending == []
            && Out(t.subs[id]) == Out(s.subs[id]) && t.subs[id].gap == s.subs[id].gap
    decreases |after|
  {
    if after != [] {
      NothingMore(s, id, after[..|after| - 1]);
      StaysClosed(Execute(s, after[..|after| - 1]), id, after[|after| - 1]);
    }
  }

  lemma StaysClosed(s: System, id: nat, step: Step)
    requires id in s.subs && s.subs[id].stopped && s.subs[id].pending == []
    ensures var u, t := s.subs[id], Next(s, step);
            id in t.subs && t.subs[id].stopped && t.subs[id].pending == []
            && Out(t.subs[id]) == Out(u) && t.subs[id].gap == u.gap
  {
    var u := s.subs[id];
    if u.channel != [] {
      assert u.channel == [u.channel[0]] + u.channel[1..];
      assert Out(Receive(u).0) == Out(u);
    }
  }

  /** Once closed, a subscriber is handed nothing but what already lay in its queue, in every run. */
  lemma NothingAfterLeave(steps: seq<Step>, id: nat, after: seq<Step>)
    requires id in Execute(Empty, steps).subs
    ensures var s, t := Execute(Empty, steps), Execute(Empty, steps + [Leave(id)] + after);
            id in t.subs && t.subs[id].stopped && Out(t.subs[id]) == Out(s.subs[id])
  {
    var s := Execute(Empty, steps);
    RunsCompose(Empty, steps, [Leave(id)]);
    FirstStep(s, Leave(id), []);
    assert [Leave(id)] + [] == [Leave(id)];
    RunsCompose(Empty, steps + [Leave(id)], after);
    NothingMore(Next(s, Leave(id)), id, after);
    assert Out(Stop(s.subs[id])) == Out(s.subs[id]);
  }
}
