/** One subscriber: the start rule, the gap check, and the poll / hand-off / receive steps. */
module Subscription {
  import opened Prelude
  import opened ChannelFilter
  import opened EventLog

  const QUEUE: nat := 256

  /** A lost or impossible cursor, with the point to resume from. */
  datatype Gap = Gap(requested: int, oldest: int, resume: int, ahead: bool)

  function NewGap(requested: int, oldest: int, ahead: bool): Gap {
    Gap(requested, oldest, oldest - 1, ahead)
  }

  function OldestOrNext(log: Log): int {
    if Oldest(log).Some? then Oldest(log).value else log.last + 1
  }

  function GapCheck(log: Log, cursor: int): Option<Gap> {
    if cursor > log.last then Some(NewGap(cursor, log.last + 1, true))
    else if cursor < OldestOrNext(log) - 1 then Some(NewGap(cursor, OldestOrNext(log), false))
    else None
  }

  predicate Wanted(ns: string, filter: Filter, e: Event) {
    e.ns == ns && Accepts(filter, e.channel)
  }

  /** SELECT ... WHERE seq > cursor AND namespace AND filter ORDER BY seq LIMIT limit. */
  function Select(rows: seq<Event>, cursor: int, ns: string, filter: Filter, limit: nat): seq<Event> {
    if rows == [] || limit == 0 then []
    else if rows[0].seqNo > cursor && Wanted(ns, filter, rows[0]) then
      [rows[0]] + Select(rows[1..], cursor, ns, filter, limit - 1)
    else Select(rows[1..], cursor, ns, filter, limit)
  }

  /**
   * A subscriber: `pending` was fetched but not yet handed over, `channel` is handed over but not
   * yet received, `handed` is everything received. `cursor` moves with the hand-over.
   */
  datatype Sub = Sub(ns: string, filter: Filter, start: int, cursor: int, pending: seq<Event>,
                     channel: seq<Event>, handed: seq<Event>, gap: Option<Gap>, stopped: bool)

  datatype Received = Got(event: Event) | Lost(gap: Gap) | Closed | Nothing

  /** Where a watch starts: now, before the oldest retained event, or after a saved seq. */
  function Open(log: Log, ns: string, filter: Filter, from: Option<nat>): Sub {
    var start := if from.None? then log.last
                 else if from.value == 0 then OldestOrNext(log) - 1
                 else from.value;
    var gap := if from.Some? && from.value != 0 then GapCheck(log, start) else None;
    Sub(ns, filter, start, start, [], [], [], gap, false)
  }

  /** One poll: gap check and batch read on one snapshot of the table. */
  function Fetch(u: Sub, log: Log): Sub {
    if u.pending != [] || u.gap.Some? || u.stopped then u
    else if GapCheck(log, u.cursor).Some? then u.(gap := GapCheck(log, u.cursor))
    else u.(pending := Select(log.rows, u.cursor, u.ns, u.filter, BATCH))
  }

  /** Hands one fetched event over, if there is room. */
  function Send(u: Sub): Sub {
    if u.pending == [] || |u.channel| >= QUEUE then u
    else u.(cursor := u.pending[0].seqNo, channel := u.channel + [u.pending[0]], pending := u.pending[1..])
  }

  function SendAll(u: Sub): Sub
    decreases |u.pending|
  {
    if u.pending == [] || |u.channel| >= QUEUE then u else SendAll(Send(u))
  }

  /** Takes the next event; the end of the subscription shows only once the channel is empty. */
  function Receive(u: Sub): (Sub, Received) {
    if u.channel != [] then
      (u.(channel := u.channel[1..], handed := u.handed + [u.channel[0]]), Got(u.channel[0]))
    else if u.gap.Some? then (u, Lost(u.gap.value))
    else if u.stopped then (u, Closed)
    else (u, Nothing)
  }

  function Stop(u: Sub): Sub {
    u.(stopped := true, pending := [])
  }

  // ---- The gap rule ---------------------------------------------------------------------------

  ghost predicate Retains(log: Log, q: int) {
    exists e :: e in log.rows && e.seqNo == q
  }

  /**
   * The gap check in terms of what is in the table. It is silent exactly when nothing after the
   * cursor was ever assigned or some event no later than cursor + 1 is still there.
   */
  lemma GapRule(log: Log, cursor: int)
    requires ValidLog(log)
    ensures var g := GapCheck(log, cursor);
            && (g.Some? && g.value.ahead <==> log.last < cursor)
            && (g.Some? && !g.value.ahead <==>
                cursor < log.last && forall q :: Retains(log, q) ==> cursor + 1 < q)
            && (g.Some? ==> g.value.requested == cursor && g.value.resume == g.value.oldest - 1)
            && (g.Some? && g.value.ahead ==> g.value.oldest == log.last + 1)
            && (g.Some? && !g.value.ahead ==>
                && cursor + 1 < g.value.oldest <= log.last + 1
                && (forall q :: cursor < q < g.value.oldest ==> !Retains(log, q))
                && (g.value.oldest <= log.last ==> Retains(log, g.value.oldest)))
  {
    if log.rows != [] {
      assert log.rows[0] in log.rows;
      assert Retains(log, log.rows[0].seqNo);
      forall q | Retains(log, q) ensures log.rows[0].seqNo <= q {
        var e :| e in log.rows && e.seqNo == q;
      }
    }
  }

  /**
   * Watching again from the reported resume point is accepted. It sees every event still retained
   * exactly when the cursor was behind, or nothing is retained: a cursor ahead of a recreated file
   * is told to resume at the end of it, past whatever the new file already holds.
   */
  lemma ResumeIsSafe(log: Log, cursor: int, ns: string, filter: Filter)
    requires ValidLog(log) && 0 <= cursor && GapCheck(log, cursor).Some?
    ensures var g := GapCheck(log, cursor).value;
            && 0 <= g.resume
            && Open(log, ns, filter, Some(g.resume)).gap.None?
            && Open(log, ns, filter, Some(g.resume)).cursor == g.resume
            && ((forall e :: e in log.rows ==> g.resume < e.seqNo) <==> cursor <= log.last || log.rows == [])
  {
    GapRule(log, cursor);
    if log.rows != [] {
      assert log.rows[0] in log.rows;
      assert forall i :: 0 <= i < |log.rows| ==> log.rows[0].seqNo <= log.rows[i].seqNo;
    }
  }

  /** The three starts: now sees nothing old, 0 sees everything retained, and neither reports a gap. */
  lemma StartRule(log: Log, ns: string, filter: Filter, from: Option<nat>)
    requires ValidLog(log)
    ensures var u := Open(log, ns, filter, from);
            && (from.None? ==> u.gap.None? && GapCheck(log, u.cursor).None? && u.cursor == log.last)
            && (from == Some(0) ==> u.gap.None? && GapCheck(log, u.cursor).None?
                                    && 0 <= u.cursor <= log.last
                                    && forall e :: e in log.rows ==> u.cursor < e.seqNo)
            && (from.Some? && from.value > 0 ==> u.cursor == from.value && u.gap == GapCheck(log, from.value))
  {
    assert forall i :: 0 < i < |log.rows| ==> log.rows[0].seqNo < log.rows[i].seqNo;
  }

  /** The batch read: ordered, past the cursor, matching, and with nothing skipped below its end. */
  ghost predicate IsBatch(batch: seq<Event>, rows: seq<Event>, cursor: int, ns: string, filter: Filter, limit: nat) {
    && Ordered(batch)
    && |batch| <= limit
    && (forall e :: e in batch ==> e in rows && cursor < e.seqNo && Wanted(ns, filter, e))
    && (forall e :: e in rows && cursor < e.seqNo && Wanted(ns, filter, e) && e !in batch ==>
                      |batch| == limit && forall b :: b in batch ==> b.seqNo < e.seqNo)
  }

  lemma {:induction false} SelectShape(rows: seq<Event>, cursor: int, ns: string, filter: Filter, limit: nat)
    requires Ordered(rows)
    ensures IsBatch(Select(rows, cursor, ns, filter, limit), rows, cursor, ns, filter, limit)
  {
    if rows != [] && limit != 0 {
      if rows[0].seqNo > cursor && Wanted(ns, filter, rows[0]) {
        SelectShape(rows[1..], cursor, ns, filter, limit - 1);
        TakeFirst(rows, cursor, ns, filter, limit, Select(rows[1..], cursor, ns, filter, limit - 1));
      } else {
        SelectShape(rows[1..], cursor, ns, filter, limit);
        assert rows == [rows[0]] + rows[1..];
      }
    }
  }

  lemma TakeFirst(rows: seq<Event>, cursor: int, ns: string, filter: Filter, limit: nat, rest: seq<Event>)
    requires Ordered(rows) && rows != [] && limit > 0
    requires cursor < rows[0].seqNo && Wanted(ns, filter, rows[0])
    requires IsBatch(rest, rows[1..], cursor, ns, filter, limit - 1)
    ensures IsBatch([rows[0]] + rest, rows, cursor, ns, filter, limit)
  {
    assert rows == [rows[0]] + rows[1..];
    forall e | e in rows[1..] ensures rows[0].seqNo < e.seqNo {
      var i :| 0 <= i < |rows[1..]| && rows[1..][i] == e;
      assert rows[i + 1] == e;
    }
    OrderedCons(rows[0], rest);
  }

  // ---- The steps, one by one --------------------------------------------------------------------

  /** A watch keeps what it was asked for and begins with nothing fetched, handed over or reported. */
  lemma OpenRule(log: Log, ns: string, filter: Filter, from: Option<nat>)
    ensures var u := Open(log, ns, filter, from);
            && u.ns == ns && u.filter == filter && u.start == u.cursor && !u.stopped
            && u.pending == [] && u.channel == [] && u.handed == []
  {
  }

  /** Before anything was fetched a poll either reports the gap there is, or fetches the batch there is. */
  lemma PollRule(u: Sub, log: Log)
    requires ValidLog(log)
    ensures var t := Fetch(u, log);
            && (u.pending == [] && u.gap.None? && !u.stopped ==>
                  && t.gap == GapCheck(log, u.cursor)
                  && (t.gap.Some? ==> t == u.(gap := t.gap))
                  && (t.gap.None? ==> t == u.(pending := t.pending)
                                      && IsBatch(t.pending, log.rows, u.cursor, u.ns, u.filter, 500)))
            && (u.pending != [] || u.gap.Some? || u.stopped ==> t == u)
  {
    SelectShape(log.rows, u.cursor, u.ns, u.filter, BATCH);
  }

  /** What a subscriber wants: events of its own namespace, on the channels its filter accepts. */
  lemma WantedRule(ns: string, filter: Filter, e: Event)
    ensures Wanted(ns, filter, e) <==> e.ns == ns && Accepts(filter, e.channel)
  {
  }

  /** How many of the fetched events there is room for. */
  function Room(u: Sub): nat {
    Min(|u.pending|, Max(256 - |u.channel|, 0))
  }

  /** Delivery hands over the first events of the batch in order, as many as there is room for, and nothing else. */
  ghost predicate HandsOver(u: Sub, t: Sub) {
    var n := Room(u);
    && t.channel == u.channel + u.pending[..n]
    && t.pending == u.pending[n..]
    && t.cursor == (if n == 0 then u.cursor else u.pending[n - 1].seqNo)
    && t == u.(channel := t.channel, pending := t.pending, cursor := t.cursor)
  }

  lemma {:induction false} DeliveryRule(u: Sub)
    ensures HandsOver(u, SendAll(u))
    decreases |u.pending|
  {
    var n := Room(u);
    if n == 0 {
      assert u.channel + u.pending[..0] == u.channel && u.pending[0..] == u.pending;
    } else {
      DeliveryRule(Send(u));
      assert u.pending[..n] == [u.pending[0]] + u.pending[1..][..n - 1];
      assert (u.channel + [u.pending[0]]) + u.pending[1..][..n - 1] == u.channel + u.pending[..n];
      assert u.pending[1..][n - 1..] == u.pending[n..];
    }
  }

  /** A hand-over step is the delivery of one event, and so is the whole of the loop. */
  lemma SendRule(u: Sub)
    ensures Room(u) == 0 ==> Send(u) == u
    ensures Room(u) > 0 ==>
              Send(u) == u.(channel := u.channel + [u.pending[0]], pending := u.pending[1..],
                            cursor := u.pending[0].seqNo)
  {
  }

  /** Events come out in the order they were handed over; a gap, then the close, only once none is left. */
  lemma ReceiveRule(u: Sub)
    ensures var (t, r) := Receive(u);
            && (u.channel != [] ==> r == Got(u.channel[0]) && t.handed == u.handed + [u.channel[0]]
                                    && u.channel == [u.channel[0]] + t.channel)
            && (u.channel == [] ==> t == u)
            && (u.channel == [] && u.gap.Some? ==> r == Lost(u.gap.value))
            && (u.channel == [] && u.gap.None? ==> r == if u.stopped then Closed else Nothing)
            && t == u.(channel := t.channel, handed := t.handed)
  {
    assert u.channel != [] ==> u.channel == [u.channel[0]] + u.channel[1..];
  }

  // ---- The subscriber -------------------------------------------------------------------------

  class Subscriber {
    const ns: string
    const filter: Filter
    const start: int
    var cursor: int
    var pending: seq<Event>
    var channel: seq<Event>
    var handed: seq<Event>
    var gap: Option<Gap>
    var stopped: bool

    ghost function State(): Sub
      reads this
    {
      Sub(ns, filter, start, cursor, pending, channel, handed, gap, stopped)
    }

    constructor (table: EventTable, ns: string, filter: Filter, from: Option<nat>)
      ensures State() == Open(table.Contents(), ns, filter, from)
    {
      var log := table.Contents();
      var first := log.last;
      var lost: Option<Gap> := None;
      if from.Some? {
        if from.value == 0 {
          if Oldest(log).Some? {
            first := Oldest(log).value - 1;
          }
        } else {
          first := from.value;
          lost := GapCheck(log, first);
        }
      }
      this.ns, this.filter, this.start := ns, filter, first;
      cursor, pending, channel, handed, gap, stopped := first, [], [], [], lost, false;
    }

    /** The top of the poll loop. */
    method Poll(table: EventTable)
      modifies this
      ensures State() == Fetch(old(State()), old(table.Contents()))
    {
      if pending != [] || gap.Some? || stopped {
        return;
      }
      var log := table.Contents();
      gap := GapCheck(log, cursor);
      if gap.None? {
        pending := Select(log.rows, cursor, ns, filter, BATCH);
      }
    }

    /** Hands fetched events over one at a time, advancing the cursor with each. */
    method Deliver()
      modifies this
      ensures State() == SendAll(old(State())) && HandsOver(old(State()), State())
    {
      DeliveryRule(State());
      while pending != [] && |channel| < QUEUE
        invariant SendAll(State()) == SendAll(old(State()))
        decreases |pending|
      {
        channel, cursor, pending := channel + [pending[0]], pending[0].seqNo, pending[1..];
      }
    }

    method TryNext() returns (r: Received)
      modifies this
      ensures (State(), r) == Receive(old(State()))
    {
      if channel != [] {
        r := Got(channel[0]);
        handed, channel := handed + [channel[0]], channel[1..];
      } else if gap.Some? {
        r := Lost(gap.value);
      } else if stopped {
        r := Closed;
      } else {
        r := Nothing;
      }
    }

    method Close()
      modifies this
      ensures State() == Stop(old(State()))
    {
      stopped, pending := true, [];
    }
  }
}
