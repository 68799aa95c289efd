/**
 * The durable event table: publishing, the bounded delete statement every purge is made of,
 * the retention bound, and the loops around them.
 */
module EventLog {
  import opened Prelude

  const BATCH: nat := 500

  datatype Event = Event(seqNo: int, channel: string, ns: string, payload: string, createdAt: int)

  /** What a publisher supplies; the table assigns the sequence number. */
  datatype Draft = Draft(channel: string, payload: string)

  /** Retained rows in primary-key order, and the last seq ever assigned (sqlite_sequence). */
  datatype Log = Log(rows: seq<Event>, last: nat)

  ghost predicate Ordered(rows: seq<Event>) {
    forall i, j :: 0 <= i < j < |rows| ==> rows[i].seqNo < rows[j].seqNo
  }

  ghost predicate ValidLog(log: Log) {
    Ordered(log.rows) && forall i :: 0 <= i < |log.rows| ==> 1 <= log.rows[i].seqNo <= log.last
  }

  // ---- Statements -------------------------------------------------------------------------

  datatype EmptyChannel = EmptyChannel

  /** The WHERE clauses a purge uses. */
  datatype Where = UpTo(bound: int) | OnChannel(channel: string) | Exactly(seqNo: int)

  predicate Holds(w: Where, e: Event) {
    match w
    case UpTo(bound) => e.seqNo <= bound
    case OnChannel(channel) => e.channel == channel
    case Exactly(n) => e.seqNo == n
  }

  /** INSERT of one row under AUTOINCREMENT. */
  function Publish(log: Log, d: Draft, ns: string, now: int): Log {
    Log(log.rows + [Event(log.last + 1, d.channel, ns, d.payload, now)], log.last + 1)
  }

  function PublishAll(log: Log, drafts: seq<Draft>, ns: string, now: int): Log
    decreases |drafts|
  {
    if drafts == [] then log
    else Publish(PublishAll(log, drafts[..|drafts| - 1], ns, now), drafts[|drafts| - 1], ns, now)
  }

  /** DELETE ... WHERE seq IN (SELECT seq FROM events WHERE w ORDER BY seq LIMIT limit). */
  function DeleteFirst(rows: seq<Event>, w: Where, limit: nat): seq<Event> {
    if rows == [] || limit == 0 then rows
    else if Holds(w, rows[0]) then DeleteFirst(rows[1..], w, limit - 1)
    else [rows[0]] + DeleteFirst(rows[1..], w, limit)
  }

  function Keep(rows: seq<Event>, w: Where): seq<Event> {
    if rows == [] then []
    else if Holds(w, rows[0]) then Keep(rows[1..], w)
    else [rows[0]] + Keep(rows[1..], w)
  }

  /** SELECT min(seq) FROM events. */
  function Oldest(log: Log): Option<int> {
    if log.rows == [] then None else Some(log.rows[0].seqNo)
  }

  /** SELECT max(seq) FROM events WHERE created_at <= cutoff. */
  function AgeBound(rows: seq<Event>, cutoff: int): Option<int> {
    if rows == [] then None
    else if rows[|rows| - 1].createdAt <= cutoff then Some(rows[|rows| - 1].seqNo)
    else AgeBound(rows[..|rows| - 1], cutoff)
  }

  /** SELECT seq FROM events ORDER BY seq DESC LIMIT 1 OFFSET n. */
  function CapBound(rows: seq<Event>, n: nat): Option<int> {
    if n < |rows| then Some(rows[|rows| - 1 - n].seqNo) else None
  }

  /** The newest of the two bounds; a missing one does not count. */
  function Newest(a: Option<int>, b: Option<int>): Option<int> {
    if b.Some? && (a.None? || b.value > a.value) then b else a
  }

  /** A count cap is in force only when positive. */
  function RetentionBound(rows: seq<Event>, cutoff: int, maxCount: int): Option<int> {
    Newest(AgeBound(rows, cutoff), if maxCount > 0 then CapBound(rows, maxCount) else None)
  }

  // ---- What the statements do ---------------------------------------------------------------

  lemma {:induction false} PublishAllShape(log: Log, drafts: seq<Draft>, ns: string, now: int)
    ensures PublishAll(log, drafts, ns, now).last == log.last + |drafts|
    ensures |PublishAll(log, drafts, ns, now).rows| == |log.rows| + |drafts|
    ensures log.rows <= PublishAll(log, drafts, ns, now).rows
    ensures forall j {:trigger PublishAll(log, drafts, ns, now).rows[j]} ::
              |log.rows| <= j < |log.rows| + |drafts| ==>
                var i := j - |log.rows|;
                PublishAll(log, drafts, ns, now).rows[j]
                == Event(log.last + 1 + i, drafts[i].channel, ns, drafts[i].payload, now)
  {
    if drafts != [] {
      PublishAllShape(log, drafts[..|drafts| - 1], ns, now);
    }
  }

  /** Publishing keeps the table ordered and never reuses a seq, whatever was deleted before. */
  lemma PublishAllValid(log: Log, drafts: seq<Draft>, ns: string, now: int)
    requires ValidLog(log)
    ensures ValidLog(PublishAll(log, drafts, ns, now))
  {
    PublishAllShape(log, drafts, ns, now);
    var after := PublishAll(log, drafts, ns, now);
    assert forall i :: 0 <= i < |log.rows| ==> after.rows[i] == log.rows[i];
  }

  lemma {:induction false} KeepShape(rows: seq<Event>, w: Where)
    requires Ordered(rows)
    ensures Ordered(Keep(rows, w))
    ensures forall e :: e in Keep(rows, w) <==> e in rows && !Holds(w, e)
    ensures |Keep(rows, w)| <= |rows|
  {
    if rows != [] {
      KeepShape(rows[1..], w);
      assert rows == [rows[0]] + rows[1..];
      OrderedCons(rows[0], Keep(rows[1..], w));
    }
  }

  lemma OrderedCons(e: Event, rest: seq<Event>)
    requires Ordered(rest)
    requires forall x :: x in rest ==> e.seqNo < x.seqNo
    ensures Ordered([e] + rest)
  {
  }

  /**
   * One bounded delete: what is left is a subsequence, only rows satisfying the clause go, at most
   * `limit` of them, and fewer than `limit` only when none satisfying it is left.
   */
  lemma DeleteFirstShape(rows: seq<Event>, w: Where, limit: nat)
    requires Ordered(rows)
    ensures var left := DeleteFirst(rows, w, limit);
            && Ordered(left)
            && |rows| - limit <= |left| <= |rows|
            && (forall e :: e in left ==> e in rows)
            && (forall e :: e in rows && e !in left ==> Holds(w, e))
            && (|rows| - |left| < limit ==> left == Keep(rows, w))
            && Keep(left, w) == Keep(rows, w)
  {
    DeleteFirstLeaves(rows, w, limit);
    DeleteFirstKeeps(rows, w, limit);
  }

  lemma {:induction false} DeleteFirstLeaves(rows: seq<Event>, w: Where, limit: nat)
    requires Ordered(rows)
    ensures var left := DeleteFirst(rows, w, limit);
            && Ordered(left)
            && (forall e :: e in left ==> e in rows)
            && (forall e :: e in rows && e !in left ==> Holds(w, e))
  {
    if rows != [] && limit != 0 {
      assert rows == [rows[0]] + rows[1..];
      if Holds(w, rows[0]) {
        DeleteFirstLeaves(rows[1..], w, limit - 1);
      } else {
        DeleteFirstLeaves(rows[1..], w, limit);
        OrderedCons(rows[0], DeleteFirst(rows[1..], w, limit));
      }
    }
  }

  lemma {:induction false} DeleteFirstKeeps(rows: seq<Event>, w: Where, limit: nat)
    ensures var left := DeleteFirst(rows, w, limit);
            && |rows| - limit <= |left| <= |rows|
            && (|rows| - |left| < limit ==> left == Keep(rows, w))
            && Keep(left, w) == Keep(rows, w)
  {
    if rows != [] && limit != 0 {
      DeleteFirstKeeps(rows[1..], w, if Holds(w, rows[0]) then limit - 1 else limit);
    }
  }

  /** A bounded delete takes the oldest of the rows its clause covers. */
  lemma {:induction false} DeleteTakesOldest(rows: seq<Event>, w: Where, limit: nat)
    requires Ordered(rows)
    ensures var left := DeleteFirst(rows, w, limit);
            forall d, e :: d in rows && d !in left && e in left && Holds(w, e) ==> d.seqNo < e.seqNo
  {
    if rows != [] && limit != 0 {
      var more := if Holds(w, rows[0]) then limit - 1 else limit;
      DeleteTakesOldest(rows[1..], w, more);
      DeleteFirstShape(rows[1..], w, more);
    }
  }

  /** A delete bounded by seq takes rows off the low end only: every batch leaves a suffix. */
  lemma {:induction false} BoundedDeleteLeavesSuffix(rows: seq<Event>, bound: int, limit: nat)
    requires Ordered(rows)
    ensures var left := DeleteFirst(rows, UpTo(bound), limit);
            |left| <= |rows| && left == rows[|rows| - |left|..]
  {
    if rows != [] && limit != 0 {
      if rows[0].seqNo <= bound {
        BoundedDeleteLeavesSuffix(rows[1..], bound, limit - 1);
      } else {
        NothingToDelete(rows, bound, limit);
      }
    }
  }

  lemma {:induction false} NothingToDelete(rows: seq<Event>, bound: int, limit: nat)
    requires forall e :: e in rows ==> bound < e.seqNo
    ensures DeleteFirst(rows, UpTo(bound), limit) == rows
  {
    if rows != [] && limit != 0 {
      NothingToDelete(rows[1..], bound, limit);
    }
  }

  /** Keeping what a bound does not cover is dropping a prefix. */
  lemma {:induction false} KeepAboveIsSuffix(rows: seq<Event>, bound: int)
    requires Ordered(rows)
    ensures |Keep(rows, UpTo(bound))| <= |rows|
    ensures Keep(rows, UpTo(bound)) == rows[|rows| - |Keep(rows, UpTo(bound))|..]
  {
    DeleteFirstShape(rows, UpTo(bound), |rows| + 1);
    BoundedDeleteLeavesSuffix(rows, bound, |rows| + 1);
  }

  lemma {:induction false} AgeBoundShape(rows: seq<Event>, cutoff: int)
    requires Ordered(rows)
    ensures AgeBound(rows, cutoff).None? <==> forall e :: e in rows ==> cutoff < e.createdAt
    ensures AgeBound(rows, cutoff).Some? ==>
              var b := AgeBound(rows, cutoff).value;
              && (exists e :: e in rows && e.seqNo == b && e.createdAt <= cutoff)
              && (forall e :: e in rows && e.createdAt <= cutoff ==> e.seqNo <= b)
  {
    if rows != [] {
      AgeBoundShape(rows[..|rows| - 1], cutoff);
      assert rows == rows[..|rows| - 1] + [rows[|rows| - 1]];
      if rows[|rows| - 1].createdAt <= cutoff {
        assert rows[|rows| - 1] in rows;
      }
    }
  }

  lemma {:induction false} SuffixAbove(rows: seq<Event>, bound: int, k: nat)
    requires k <= |rows|
    requires forall i :: 0 <= i < k ==> rows[i].seqNo <= bound
    requires forall i :: k <= i < |rows| ==> bound < rows[i].seqNo
    ensures Keep(rows, UpTo(bound)) == rows[k..]
  {
    if k < |rows| && k == 0 {
      KeepsAll(rows, UpTo(bound));
    } else if k > 0 {
      SuffixAbove(rows[1..], bound, k - 1);
    }
  }

  /** Retention keeps exactly the newest n rows when the count bound is the one that decides. */
  lemma CapBoundKeepsNewest(rows: seq<Event>, n: nat)
    requires Ordered(rows) && n < |rows|
    ensures Keep(rows, UpTo(CapBound(rows, n).value)) == rows[|rows| - n..]
  {
    SuffixAbove(rows, CapBound(rows, n).value, |rows| - n);
  }

  lemma {:induction false} LargerBoundKeepsFewer(rows: seq<Event>, a: int, b: int)
    requires a <= b
    ensures |Keep(rows, UpTo(b))| <= |Keep(rows, UpTo(a))|
  {
    if rows != [] {
      LargerBoundKeepsFewer(rows[1..], a, b);
    }
  }

  /** What one undisturbed retention pass leaves behind. */
  function Retained(rows: seq<Event>, cutoff: int, maxCount: int): seq<Event> {
    match RetentionBound(rows, cutoff, maxCount)
    case None => rows
    case Some(bound) => Keep(rows, UpTo(bound))
  }

  /** A finished pass leaves a suffix, and nothing at or past the age cutoff survives it. */
  lemma RetentionLeavesYoungSuffix(rows: seq<Event>, cutoff: int, maxCount: int)
    requires Ordered(rows)
    ensures var left := Retained(rows, cutoff, maxCount);
            && |left| <= |rows|
            && left == rows[|rows| - |left|..]
            && (forall e :: e in left ==> cutoff < e.createdAt)
  {
    AgeBoundShape(rows, cutoff);
    var bound := RetentionBound(rows, cutoff, maxCount);
    if bound.Some? {
      KeepAboveIsSuffix(rows, bound.value);
      KeepShape(rows, UpTo(bound.value));
    }
  }

  /**
   * A count cap n leaves at most the n newest rows, and exactly min(n, size) of them when the age
   * bound would remove nothing more.
   */
  lemma RetentionHonoursCap(rows: seq<Event>, cutoff: int, maxCount: int)
    requires Ordered(rows) && maxCount > 0
    ensures |Retained(rows, cutoff, maxCount)| <= Min(maxCount, |rows|)
    ensures var age, cap := AgeBound(rows, cutoff), CapBound(rows, maxCount);
            age.None? || (cap.Some? && age.value <= cap.value)
            ==> |Retained(rows, cutoff, maxCount)| == Min(maxCount, |rows|)
  {
    RetentionLeavesYoungSuffix(rows, cutoff, maxCount);
    if maxCount < |rows| {
      var cap := CapBound(rows, maxCount).value;
      CapBoundKeepsNewest(rows, maxCount);
      LargerBoundKeepsFewer(rows, cap, RetentionBound(rows, cutoff, maxCount).value);
    }
  }

  /**
   * Exactly what a retention pass keeps. A row stays iff every row from it on was created after the
   * cutoff, and, under a count cap, it is among the newest that many.
   */
  lemma RetentionIsExact(rows: seq<Event>, cutoff: int, maxCount: int, i: nat)
    requires Ordered(rows) && i < |rows|
    ensures rows[i] in Retained(rows, cutoff, maxCount) <==>
            && (forall j :: i <= j < |rows| ==> cutoff < rows[j].createdAt)
            && (maxCount > 0 ==> |rows| - i <= maxCount)
  {
    AgeBoundShape(rows, cutoff);
    AgeBoundCovers(rows, cutoff, i);
    var bound := RetentionBound(rows, cutoff, maxCount);
    if bound.Some? {
      KeepShape(rows, UpTo(bound.value));
    }
  }

  /** The age bound reaches a row iff that row or a later one is old enough. */
  lemma AgeBoundCovers(rows: seq<Event>, cutoff: int, i: nat)
    requires Ordered(rows) && i < |rows|
    ensures (AgeBound(rows, cutoff).Some? && rows[i].seqNo <= AgeBound(rows, cutoff).value) <==>
            exists j :: i <= j < |rows| && rows[j].createdAt <= cutoff
  {
    AgeBoundShape(rows, cutoff);
    if AgeBound(rows, cutoff).Some? {
      var b := AgeBound(rows, cutoff).value;
      var e :| e in rows && e.seqNo == b && e.createdAt <= cutoff;
      var k :| 0 <= k < |rows| && rows[k] == e;
      assert k < i ==> rows[k].seqNo < rows[i].seqNo;
    }
    forall j | i <= j < |rows| && rows[j].createdAt <= cutoff
      ensures AgeBound(rows, cutoff).Some? && rows[i].seqNo <= AgeBound(rows, cutoff).value
    {
      assert rows[j] in rows;
      assert i < j ==> rows[i].seqNo < rows[j].seqNo;
    }
  }

  /** The rows a pass over `was` with these bounds keeps. */
  ghost predicate KeepsExactly(rows: seq<Event>, was: seq<Event>, cutoff: int, maxCount: int) {
    forall i :: 0 <= i < |was| ==>
      (was[i] in rows <==>
       (forall j :: i <= j < |was| ==> cutoff < was[j].createdAt) && (maxCount > 0 ==> |was| - i <= maxCount))
  }

  lemma RetainedKeepsExactly(was: seq<Event>, cutoff: int, maxCount: int)
    requires Ordered(was)
    ensures KeepsExactly(Retained(was, cutoff, maxCount), was, cutoff, maxCount)
  {
    forall i | 0 <= i < |was|
      ensures was[i] in Retained(was, cutoff, maxCount) <==>
              (forall j :: i <= j < |was| ==> cutoff < was[j].createdAt) && (maxCount > 0 ==> |was| - i <= maxCount)
    {
      RetentionIsExact(was, cutoff, maxCount, i);
    }
  }

  lemma IsRetained(rows: seq<Event>, was: seq<Event>, cutoff: int, maxCount: int)
    requires Ordered(was)
    requires var bound := RetentionBound(was, cutoff, maxCount);
             rows == if bound.Some? then Keep(was, UpTo(bound.value)) else was
    ensures rows == Retained(was, cutoff, maxCount) && KeepsExactly(rows, was, cutoff, maxCount)
  {
    RetainedKeepsExactly(was, cutoff, maxCount);
  }

  // ---- The table ----------------------------------------------------------------------------

  class EventTable {
    var rows: seq<Event>
    var last: nat

    ghost predicate Valid()
      reads this
    {
      ValidLog(Contents())
    }

    function Contents(): Log
      reads this
    {
      Log(rows, last)
    }

    constructor ()
      ensures Valid() && Contents() == Log([], 0)
    {
      rows, last := [], 0;
    }

    /** Publishes the drafts in one transaction and returns their seqs, in order. */
    method InsertEvents(drafts: seq<Draft>, ns: string, now: int) returns (seqs: seq<int>)
      requires Valid()
      modifies this
      ensures Valid()
      ensures Contents() == PublishAll(old(Contents()), drafts, ns, now)
      ensures |seqs| == |drafts| && forall i :: 0 <= i < |seqs| ==> seqs[i] == old(last) + 1 + i
    {
      seqs := [];
      for n := 0 to |drafts|
        invariant Contents() == PublishAll(old(Contents()), drafts[..n], ns, now)
        invariant last == old(last) + n
        invariant |seqs| == n && forall i :: 0 <= i < n ==> seqs[i] == old(last) + 1 + i
      {
        assert drafts[..n + 1][..n] == drafts[..n];
        rows, last := rows + [Event(last + 1, drafts[n].channel, ns, drafts[n].payload, now)], last + 1;
        seqs := seqs + [last];
      }
      assert drafts[..|drafts|] == drafts;
      PublishAllValid(old(Contents()), drafts, ns, now);
    }

    /** One autocommitted delete statement; returns the rows affected. */
    method DeleteBatch(w: Where, limit: nat) returns (affected: nat)
      requires Valid()
      modifies this`rows
      ensures Valid()
      ensures rows == DeleteFirst(old(rows), w, limit)
      ensures affected == |old(rows)| - |rows|
    {
      DeleteFirstShape(rows, w, limit);
      affected := |rows| - |DeleteFirst(rows, w, limit)|;
      rows := DeleteFirst(rows, w, limit);
      forall i | 0 <= i < |rows| ensures 1 <= rows[i].seqNo <= last {
        assert rows[i] in old(rows);
      }
    }

    /** Repeats short deletes until one comes back short; returns how many rows went. */
    method DeleteEventsBatched(w: Where) returns (total: nat)
      requires Valid()
      modifies this`rows
      ensures Valid()
      ensures rows == Keep(old(rows), w)
      ensures total == |old(rows)| - |rows|
    {
      total := 0;
      while true
        invariant Valid()
        invariant Keep(rows, w) == Keep(old(rows), w)
        invariant total + |rows| == |old(rows)|
        decreases |rows|
      {
        DeleteFirstShape(rows, w, BATCH);
        var n := DeleteBatch(w, BATCH);
        total := total + n;
        if n < BATCH {
          return;
        }
      }
    }

    /** Deletes one retained event, reporting whether it existed. */
    method DeleteEvent(seqNo: int) returns (existed: bool)
      requires Valid()
      modifies this`rows
      ensures Valid()
      ensures rows == Keep(old(rows), Exactly(seqNo))
      ensures existed <==> exists e :: e in old(rows) && e.seqNo == seqNo
      ensures forall e :: e in rows <==> e in old(rows) && e.seqNo != seqNo
    {
      DeleteFirstShape(rows, Exactly(seqNo), |rows| + 1);
      KeepShape(rows, Exactly(seqNo));
      var n := DeleteBatch(Exactly(seqNo), |rows| + 1);
      existed := n > 0;
      if forall e :: e in old(rows) ==> e.seqNo != seqNo {
        KeepsAll(old(rows), Exactly(seqNo));
      } else if n == 0 {
        SameLengthKeepsAll(old(rows), Exactly(seqNo));
      }
    }

    /** Deletes every retained event on exactly this channel; returns how many. An empty name is refused. */
    method DeleteChannelEvents(channel: string) returns (r: Result<nat, EmptyChannel>)
      requires Valid()
      modifies this`rows
      ensures Valid()
      ensures r.Err? <==> channel == ""
      ensures r.Err? ==> rows == old(rows)
      ensures r.Ok? ==> forall e :: e in rows <==> e in old(rows) && e.channel != channel
      ensures r.Ok? ==> r.value == |old(rows)| - |rows|
    {
      if channel == "" {
        return Err(EmptyChannel);
      }
      KeepShape(rows, OnChannel(channel));
      var total := DeleteEventsBatched(OnChannel(channel));
      return Ok(total);
    }

    /** Deletes every event published before t, as a prefix; returns how many. */
    method DeleteEventsBefore(t: int) returns (total: nat)
      requires Valid()
      modifies this`rows
      ensures Valid()
      ensures rows == Retained(old(rows), t - 1, 0)
      ensures KeepsExactly(rows, old(rows), t - 1, 0)
      ensures total == |old(rows)| - |rows|
    {
      RetainedKeepsExactly(rows, t - 1, 0);
      var bound := AgeBound(rows, t - 1);
      if bound.None? {
        return 0;
      }
      total := DeleteEventsBatched(UpTo(bound.value));
    }

    /** Applies retention in bounded batches. */
    method SweepEvents(now: int, retention: int, maxCount: int)
      requires Valid()
      modifies this`rows
      ensures Valid()
      ensures rows == Retained(old(rows), now - retention, maxCount)
      ensures KeepsExactly(rows, old(rows), now - retention, maxCount)
    {
      ghost var was := rows;
      var bound := ReadBound(now - retention, maxCount);
      if bound.Some? {
        SweepUpTo(bound.value);
      }
      IsRetained(rows, was, now - retention, maxCount);
    }

    method ReadBound(cutoff: int, maxCount: int) returns (bound: Option<int>)
      ensures bound == RetentionBound(rows, cutoff, maxCount)
    {
      bound := AgeBound(rows, cutoff);
      if maxCount > 0 {
        bound := Newest(bound, CapBound(rows, maxCount));
      }
    }

    method SweepUpTo(bound: int)
      requires Valid()
      modifies this`rows
      ensures Valid()
      ensures rows == Keep(old(rows), UpTo(bound))
    {
      while true
        invariant Valid()
        invariant Keep(rows, UpTo(bound)) == Keep(old(rows), UpTo(bound))
        decreases |rows|
      {
        DeleteFirstShape(rows, UpTo(bound), BATCH);
        var n := DeleteBatch(UpTo(bound), BATCH);
        if n < BATCH {
          return;
        }
      }
    }
  }

  lemma {:induction false} KeepsAll(rows: seq<Event>, w: Where)
    requires forall e :: e in rows ==> !Holds(w, e)
    ensures Keep(rows, w) == rows
  {
    if rows != [] {
      KeepsAll(rows[1..], w);
    }
  }

  lemma {:induction false} SameLengthKeepsAll(rows: seq<Event>, w: Where)
    requires Ordered(rows) && |Keep(rows, w)| == |rows|
    ensures forall e :: e in rows ==> !Holds(w, e)
  {
    if rows != [] {
      KeepShape(rows[1..], w);
      SameLengthKeepsAll(rows[1..], w);
    }
  }
}
