/**
 * The table and the statements that run on it. Rows stay after their expiry until a sweep or a
 * guarded lazy delete removes them; none of that can be told from the answers.
 */
module CacheStore {
  import opened Prelude
  import opened CacheModel
  import Decimal
  import HashSpec

  datatype Row = Row(value: Stored, createdAt: int, expiresAt: Option<int>, lastAccessed: int, accessCount: nat)

  type Rows = map<string, Row>

  function EntryOf(row: Row): Entry {
    Entry(row.value, row.expiresAt)
  }

  /** The rows a user can see at a given time. */
  ghost function View(rows: Rows, now: int): Entries {
    map k | k in rows && Alive(rows[k].expiresAt, now) :: EntryOf(rows[k])
  }

  /** How many expired rows one sweep removes at most. */
  const SWEEP_LIMIT: nat := 500

  function Expired(rows: Rows, now: int): set<string> {
    set k | k in rows && !Alive(rows[k].expiresAt, now)
  }

  lemma ViewAges(rows: Rows, now: int, later: int)
    requires now <= later
    ensures Aged(View(rows, now), later) == View(rows, later)
  {
  }

  lemma ViewPut(rows: Rows, key: string, row: Row, now: int)
    ensures View(rows[key := row], now) == Aged(View(rows, now)[key := EntryOf(row)], now)
  {
  }

  /** `op` at `now` takes the table from `before` to `after` and answers as the plain store does. */
  ghost predicate Meets(op: Op, before: Rows, after: Rows, now: int, answer: Answer) {
    var (m, a) := Plain(op, View(before, now), now);
    View(after, now) == Aged(m, now) && answer == a
  }

  /** A hash operation sees and keeps the same content and expiry whichever way it looks at the row. */
  function AsHashRow(row: Row): HashSpec.Row {
    HashSpec.Row(ContentOf(row.value), row.createdAt, row.expiresAt, row.lastAccessed, row.accessCount, 0)
  }

  function FromHashRow(row: HashSpec.Row, value: Stored): Row {
    Row(if row.content.Foreign? then value else Json(row.content),
        row.createdAt, row.expiresAt, row.lastAccessed, row.accessCount)
  }

  function RowAt(rows: Rows, key: string): Option<HashSpec.Row> {
    if key in rows then Some(AsHashRow(rows[key])) else None
  }

  /** The row a hash operation writes is the plain store's new entry. */
  lemma HashWrites(rows: Rows, key: string, op: HashSpec.Op, ttl: Option<int>, now: int, written: Row)
    requires var row := RowAt(rows, key);
             OnHash(op, if HashSpec.LiveAt(row, now) then Some(row.value.content) else None).0.Some?
    requires var after := HashSpec.Perform(HashSpec.Call(op, now, ExpiresAt(ttl, now), false), RowAt(rows, key)).0;
             after.Some? && after.value.content.Hash?
             && written.value == Json(after.value.content) && written.expiresAt == after.value.expiresAt
    ensures Meets(Hash(key, op, ttl), rows, rows[key := written], now,
                  HashAnswer(HashSpec.Perform(HashSpec.Call(op, now, ExpiresAt(ttl, now), false), RowAt(rows, key)).1))
  {
    ViewPut(rows, key, written, now);
  }

  class Cache {
    var rows: Rows

    constructor ()
      ensures rows == map[]
    {
      rows := map[];
    }

    method DeleteExpiredRow(key: string, now: int)
      modifies this
      ensures rows == if key in old(rows) && !Alive(old(rows)[key].expiresAt, now) then old(rows) - {key} else old(rows)
      ensures View(rows, now) == View(old(rows), now)
    {
      if key in rows && !Alive(rows[key].expiresAt, now) {
        rows := rows - {key};
      }
    }

    method GetKey(key: string, now: int) returns (answer: Answer)
      modifies this
      ensures Meets(Get(key), old(rows), rows, now, answer)
      ensures rows == old(rows) || (answer == Miss && key in old(rows) && rows == old(rows) - {key})
    {
      if key !in rows {
        return Miss;
      }
      var row := rows[key];
      if row.expiresAt.Some? && row.expiresAt.value <= now {
        DeleteExpiredRow(key, now);
        return Miss;
      }
      return Hit(row.value);
    }

    method ExistsKey(key: string, now: int) returns (answer: Answer)
      ensures Meets(Exists(key), rows, rows, now, answer)
    {
      answer := Flag(key in rows && Alive(rows[key].expiresAt, now));
    }

    method TtlOf(key: string, now: int) returns (answer: Answer)
      ensures Meets(Ttl(key), rows, rows, now, answer)
    {
      if key !in rows {
        return Miss;
      }
      match rows[key].expiresAt {
        case None => return NoExpiry;
        case Some(at) =>
          var remaining := at - now;
          if remaining <= 0 {
            return Miss;
          }
          return Left(remaining);
      }
    }

    method SetKey(key: string, value: Stored, ttl: Option<int>, now: int)
      modifies this
      ensures Meets(Put(key, value, ttl), old(rows), rows, now, Done)
      ensures rows == old(rows)[key := Row(value, now, if ttl.None? then None else Some(now + ttl.value), now, 0)]
    {
      var row := Row(value, now, ExpiresAt(ttl, now), now, 0);
      ViewPut(rows, key, row, now);
      rows := rows[key := row];
    }

    /** One UPSERT whose update only applies to an expired row. */
    method AddKey(key: string, value: Stored, ttl: Option<int>, now: int) returns (answer: Answer)
      modifies this
      ensures Meets(Add(key, value, ttl), old(rows), rows, now, answer)
      ensures answer == Flag(true) ==>
                rows == old(rows)[key := Row(value, now, if ttl.None? then None else Some(now + ttl.value), now, 0)]
      ensures answer == Flag(false) ==> rows == old(rows)
    {
      var won := key !in rows || (rows[key].expiresAt.Some? && rows[key].expiresAt.value <= now);
      var row := Row(value, now, ExpiresAt(ttl, now), now, 0);
      ViewPut(rows, key, row, now);
      if won {
        rows := rows[key := row];
      }
      answer := Flag(won);
    }

    method ReplaceKey(key: string, value: Stored, ttl: Option<int>, now: int) returns (answer: Answer)
      modifies this
      ensures Meets(Replace(key, value, ttl), old(rows), rows, now, answer)
      ensures answer == Flag(true) ==>
                rows == old(rows)[key := Row(value, now, if ttl.None? then None else Some(now + ttl.value), now, 0)]
      ensures answer == Flag(false) ==> rows == old(rows)
    {
      var found := key in rows && Alive(rows[key].expiresAt, now);
      var row := Row(value, now, ExpiresAt(ttl, now), now, 0);
      ViewPut(rows, key, row, now);
      if found {
        rows := rows[key := row];
      }
      answer := Flag(found);
    }

    method GetSetKey(key: string, value: Stored, now: int) returns (answer: Answer)
      modifies this
      ensures Meets(GetSet(key, value), old(rows), rows, now, answer)
      ensures rows == old(rows)[key := Row(value, now, None, now, 0)]
    {
      answer := Miss;
      if key in rows && (rows[key].expiresAt.None? || rows[key].expiresAt.value > now) {
        answer := Hit(rows[key].value);
      }
      ViewPut(rows, key, Row(value, now, None, now, 0), now);
      rows := rows[key := Row(value, now, None, now, 0)];
    }

    method ExpireKey(key: string, millis: int, now: int) returns (answer: Answer)
      modifies this
      ensures Meets(Expire(key, millis), old(rows), rows, now, answer)
      ensures answer == Flag(true) ==>
                key in old(rows) && rows == old(rows)[key := old(rows)[key].(expiresAt := Some(now + millis))]
      ensures answer == Flag(false) ==> rows == old(rows)
    {
      var found := key in rows && Alive(rows[key].expiresAt, now);
      if found {
        var row := rows[key].(expiresAt := Some(now + millis));
        ViewPut(rows, key, row, now);
        rows := rows[key := row];
      }
      answer := Flag(found);
    }

    method PersistKey(key: string, now: int) returns (answer: Answer)
      modifies this
      ensures Meets(Persist(key), old(rows), rows, now, answer)
      ensures answer == Flag(true) ==> key in old(rows) && rows == old(rows)[key := old(rows)[key].(expiresAt := None)]
      ensures answer == Flag(false) ==> rows == old(rows)
    {
      var found := key in rows && rows[key].expiresAt.Some? && rows[key].expiresAt.value > now;
      if found {
        var row := rows[key].(expiresAt := None);
        ViewPut(rows, key, row, now);
        rows := rows[key := row];
      }
      answer := Flag(found);
    }

    /**
     * The UPSERT and the read-back, in one transaction. The text read back is decoded after the
     * commit: an overflow has already replaced the counter by a real number's text.
     */
    method IncrKey(key: string, amount: int, now: int) returns (answer: Answer)
      modifies this
      ensures Meets(Incr(key, amount), old(rows), rows, now, answer)
      ensures rows - {key} == old(rows) - {key}
      ensures answer == BadAmount || answer == NotInteger ==> rows == old(rows)
      ensures answer.Number? || answer == Unreadable ==>
                && key in rows && rows[key].lastAccessed == now
                && rows[key].createdAt == (if key in old(rows) then old(rows)[key].createdAt else now)
                && rows[key].accessCount == (if key in old(rows) then old(rows)[key].accessCount else 0)
    {
      if !InInt64(amount) {
        return BadAmount;
      }
      var row: Row;
      if key !in rows {
        row := Row(IntText(Decimal.Encode(amount)), now, None, now, 0);
      } else if !Alive(rows[key].expiresAt, now) {
        row := rows[key].(value := IntText(Decimal.Encode(0 + amount)), expiresAt := None, lastAccessed := now);
      } else if !IsIntType(rows[key].value) {
        return NotInteger;
      } else {
        row := rows[key].(value := Added(rows[key].value, amount), lastAccessed := now);
      }
      ViewPut(rows, key, row, now);
      rows := rows[key := row];
      answer := DecodeIntText(rows[key].value);
    }

    method HashKey(key: string, op: HashSpec.Op, ttl: Option<int>, now: int) returns (answer: Answer)
      modifies this
      ensures Meets(Hash(key, op, ttl), old(rows), rows, now, answer)
      ensures rows - {key} == old(rows) - {key}
    {
      var row := RowAt(rows, key);
      var (after, r) := HashSpec.Perform(HashSpec.Call(op, now, ExpiresAt(ttl, now), false), row);
      answer := HashAnswer(r);
      if OnHash(op, if HashSpec.LiveAt(row, now) then Some(row.value.content) else None).0.Some? {
        var written := FromHashRow(after.value, RealText);
        HashWrites(rows, key, op, ttl, now, written);
        rows := rows[key := written];
      }
    }

    /** Counts every row it deletes, expired ones that no sweep has reached included. */
    method DeleteKeys(keys: set<string>, now: int) returns (n: nat)
      modifies this
      ensures View(rows, now) == Aged(Plain(Delete(keys), View(old(rows), now), now).0, now)
      ensures rows == old(rows) - keys && n == |keys * old(rows).Keys|
    {
      DeletedView(rows, keys, now);
      n := |keys * rows.Keys|;
      rows := rows - keys;
    }

    /** One sweep: at most 500 expired rows go, whichever the statement's LIMIT happens to pick. */
    method SweepOnce(now: int) returns (removed: nat)
      modifies this
      ensures View(rows, now) == View(old(rows), now)
      ensures rows.Keys <= old(rows).Keys && forall k :: k in rows ==> rows[k] == old(rows)[k]
      ensures removed == |old(rows).Keys - rows.Keys| == Min(500, |Expired(old(rows), now)|)
    {
      var victims := Pick(Expired(rows, now), SWEEP_LIMIT);
      rows := rows - victims;
      removed := |victims|;
    }

    /** One event, `since` being when the table was last looked at. */
    method Perform(e: Event, ghost since: int) returns (answer: Answer)
      requires since <= e.now
      modifies this
      ensures View(rows, e.now) == Step(e, View(old(rows), since)).0
      ensures !IsDelete(e) ==> answer == Step(e, View(old(rows), since)).1
    {
      ViewAges(rows, since, e.now);
      match e {
        case Sweep(now) => var _ := SweepOnce(now); answer := Done;
        case Call(now, op) =>
          match op {
            case Get(k) => answer := GetKey(k, now);
            case Exists(k) => answer := ExistsKey(k, now);
            case Ttl(k) => answer := TtlOf(k, now);
            case Put(k, v, ttl) => SetKey(k, v, ttl, now); answer := Done;
            case Add(k, v, ttl) => answer := AddKey(k, v, ttl, now);
            case Replace(k, v, ttl) => answer := ReplaceKey(k, v, ttl, now);
            case GetSet(k, v) => answer := GetSetKey(k, v, now);
            case Expire(k, ms) => answer := ExpireKey(k, ms, now);
            case Persist(k) => answer := PersistKey(k, now);
            case Incr(k, a) => answer := IncrKey(k, a, now);
            case Hash(k, h, ttl) => answer := HashKey(k, h, ttl, now);
            case Delete(ks) => var n := DeleteKeys(ks, now); answer := Count(n);
          }
      }
    }

    /**
     * A whole run, sweeps falling anywhere and removing any expired rows: every answer but a
     * delete's count is the plain store's.
     */
    method Execute(events: seq<Event>, start: int) returns (answers: seq<Answer>)
      requires ClockRuns(start, events)
      modifies this
      ensures Agree(answers, Answers(View(old(rows), start), events), events)
      ensures View(rows, Clock(start, events)) == StateAfter(View(old(rows), start), events)
    {
      answers := [];
      ghost var m := View(rows, start);
      for i := 0 to |events|
        invariant Agree(answers, Answers(m, events[..i]), events[..i])
        && View(rows, Clock(start, events[..i])) == StateAfter(m, events[..i])
      {
        OneMoreEvent(m, events, i);
        var answer := Perform(events[i], Clock(start, events[..i]));
        answers := answers + [answer];
      }
      assert events[..|events|] == events;
    }
  }

  /** The same answers but for the counts of deletes. */
  ghost predicate Agree(answers: seq<Answer>, expected: seq<Answer>, events: seq<Event>) {
    |answers| == |expected| == |events|
    && forall i :: 0 <= i < |events| && !IsDelete(events[i]) ==> answers[i] == expected[i]
  }

  lemma DeletedView(rows: Rows, keys: set<string>, now: int)
    ensures View(rows - keys, now) == Aged(Plain(Delete(keys), View(rows, now), now).0, now)
  {
  }

  lemma OneMoreEvent(m: Entries, events: seq<Event>, i: nat)
    requires i < |events|
    ensures StateAfter(m, events[..i + 1]) == Step(events[i], StateAfter(m, events[..i])).0
    ensures Answers(m, events[..i + 1]) == Answers(m, events[..i]) + [Step(events[i], StateAfter(m, events[..i])).1]
  {
    assert events[..i + 1][..i] == events[..i];
  }

  /** LIMIT n: some of the keys, n of them or all. */
  method Pick(keys: set<string>, n: nat) returns (picked: set<string>)
    ensures picked <= keys && |picked| == Min(n, |keys|)
  {
    picked := {};
    var left := keys;
    while |picked| < n && left != {}
      invariant picked + left == keys && picked !! left && |picked| <= n
      invariant |picked| + |left| == |keys|
      decreases |left|
    {
      var k :| k in left;
      picked, left := picked + {k}, left - {k};
    }
  }

  function DecodeIntText(v: Stored): Answer {
    if v.IntText? then Number(Decimal.Parse(v.text).value) else Unreadable
  }

  lemma Smaller(a: set<string>, b: set<string>)
    requires a <= b
    ensures |a| <= |b| && (|a| == |b| <==> a == b)
  {
    assert b == a + (b - a);
  }

  /** delete's count is the plain store's exactly when none of the named rows has outlived its expiry. */
  lemma DeleteCountIsExact(rows: Rows, keys: set<string>, now: int)
    ensures (Count(|keys * rows.Keys|) == Plain(Delete(keys), View(rows, now), now).1)
            <==> forall k :: k in keys && k in rows ==> Alive(rows[k].expiresAt, now)
  {
    var seen, there := keys * View(rows, now).Keys, keys * rows.Keys;
    Smaller(seen, there);
    if seen == there {
      forall k | k in keys && k in rows ensures Alive(rows[k].expiresAt, now) {
        assert k in there;
      }
    } else {
      var k :| k in there && k !in seen;
    }
  }

  /** One expired row no sweep has reached yet: delete reports 1, though the key was not there for any reader. */
  lemma DeleteCountsExpired()
    ensures var rows: Rows := map["k" := Row(RealText, 0, Some(5), 0, 0)];
            |{"k"} * rows.Keys| == 1 && Plain(Delete({"k"}), View(rows, 5), 5).1 == Count(0)
  {
    var rows: Rows := map["k" := Row(RealText, 0, Some(5), 0, 0)];
    assert {"k"} * rows.Keys == {"k"};
    assert View(rows, 5) == map[];
  }
}
