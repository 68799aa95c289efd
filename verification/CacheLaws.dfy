/**
 * The promises of the store's calls, in terms of what other calls answer: a get for the value, a ttl
 * for the time left. `m` is whatever an earlier run has left; `later` is any time from `now` on.
 */
module CacheLaws {
  import opened Prelude
  import opened CacheModel
  import Decimal
  import HashSpec

  function Reply(m: Entries, op: Op, now: int): Answer {
    Answers(m, [Call(now, op)])[0]
  }

  function After(m: Entries, op: Op, now: int): Entries {
    StateAfter(m, [Call(now, op)])
  }

  /** The value a get answers. */
  function Seen(m: Entries, key: string, now: int): Answer {
    Reply(m, Get(key), now)
  }

  /** The time left that a ttl answers. */
  function Remaining(m: Entries, key: string, now: int): Answer {
    Reply(m, Ttl(key), now)
  }

  lemma OneCall(m: Entries, op: Op, now: int)
    ensures Reply(m, op, now) == Plain(op, Aged(m, now), now).1
    ensures After(m, op, now) == Aged(Plain(op, Aged(m, now), now).0, now)
  {
  }

  lemma OneMoreEvent(m: Entries, run: seq<Event>, e: Event)
    ensures StateAfter(m, run + [e]) == Step(e, StateAfter(m, run)).0
    ensures Answers(m, run + [e]) == Answers(m, run) + [Step(e, StateAfter(m, run)).1]
  {
  }

  /** A run is its first part, and then the rest from where that left the store. */
  lemma {:induction false} RunsCompose(m: Entries, first: seq<Event>, rest: seq<Event>)
    ensures StateAfter(m, first + rest) == StateAfter(StateAfter(m, first), rest)
    ensures Answers(m, first + rest) == Answers(m, first) + Answers(StateAfter(m, first), rest)
    decreases |rest|
  {
    if rest == [] {
      assert first + rest == first;
    } else {
      var front, e := rest[..|rest| - 1], rest[|rest| - 1];
      RunsCompose(m, first, front);
      assert rest == front + [e];
      OneMoreEvent(StateAfter(m, first), front, e);
      OneMoreEvent(m, first + front, e);
      assert first + rest == (first + front) + [e];
    }
  }

  // ---- Time --------------------------------------------------------------------------------------

  /** The key has this value and, `until` being given, loses it at that time. */
  ghost predicate Lasts(m: Entries, key: string, value: Stored, until: Option<int>, later: int) {
    var over := until.Some? && until.value <= later;
    && Seen(m, key, later) == (if over then Miss else Hit(value))
    && Remaining(m, key, later) == if over then Miss else if until.None? then NoExpiry else Left(until.value - later)
  }

  /** To readers of `key` the two stores are the same. */
  ghost predicate SameAt(a: Entries, b: Entries, key: string, later: int) {
    Seen(a, key, later) == Seen(b, key, later) && Remaining(a, key, later) == Remaining(b, key, later)
  }

  /** When a write with this ttl at `now` expires. */
  function Until(now: int, ttl: Option<int>): Option<int> {
    if ttl.Some? then Some(now + ttl.value) else None
  }

  lemma Looks(m: Entries, key: string, now: int)
    ensures Seen(m, key, now)
            == if key in m && Alive(m[key].expiresAt, now) then Hit(m[key].value) else Miss
    ensures Remaining(m, key, now)
            == if !(key in m && Alive(m[key].expiresAt, now)) then Miss
               else if m[key].expiresAt.None? then NoExpiry else Left(m[key].expiresAt.value - now)
  {
  }

  /** The entry a reader of `key` finds, if any. */
  function Found(m: Entries, key: string, now: int): Option<Entry> {
    if key in m && Alive(m[key].expiresAt, now) then Some(m[key]) else None
  }

  lemma SameFound(a: Entries, b: Entries, key: string, now: int)
    requires Found(a, key, now) == Found(b, key, now)
    ensures SameAt(a, b, key, now)
  {
  }

  lemma FoundAfter(m: Entries, op: Op, key: string, now: int, later: int)
    requires now <= later
    ensures Found(After(m, op, now), key, later) == Found(Plain(op, Aged(m, now), now).0, key, later)
  {
    OneCall(m, op, now);
  }

  lemma WrittenLasts(m: Entries, op: Op, key: string, e: Entry, now: int, later: int)
    requires now <= later && Plain(op, Aged(m, now), now).0 == Aged(m, now)[key := e]
    ensures Lasts(After(m, op, now), key, e.value, e.expiresAt, later)
  {
    FoundAfter(m, op, key, now, later);
    Looks(After(m, op, now), key, later);
  }

  /** In an empty store every key is missing. */
  lemma EmptyIsMissing(key: string, now: int)
    ensures Seen(map[], key, now) == Miss && Remaining(map[], key, now) == Miss
  {
  }

  /** What a key shows now settles what it shows later, if nobody writes: values do not change, times run down. */
  lemma TimePasses(m: Entries, key: string, now: int, later: int)
    requires now <= later
    ensures Seen(m, key, now) == Miss ==> Seen(m, key, later) == Miss && Remaining(m, key, later) == Miss
    ensures Seen(m, key, now).Miss? || Seen(m, key, now).Hit?
    ensures Seen(m, key, now).Hit? ==>
              && (Remaining(m, key, now) == NoExpiry ==> Lasts(m, key, Seen(m, key, now).value, None, later))
              && (Remaining(m, key, now) != NoExpiry ==>
                    && Remaining(m, key, now).Left? && Remaining(m, key, now).millis > 0
                    && Lasts(m, key, Seen(m, key, now).value, Some(now + Remaining(m, key, now).millis), later))
  {
  }

  lemma PlainKeepsOthers(op: Op, m: Entries, key: string, now: int)
    requires if op.Delete? then key !in op.keys else op.key != key || op.Get? || op.Exists? || op.Ttl?
    ensures var after := Plain(op, m, now).0;
            (key in after <==> key in m) && (key in m ==> after[key] == m[key])
  {
  }

  /** Looking changes nothing: neither do calls about other keys, nor sweeps. */
  lemma OthersAreKept(m: Entries, op: Op, key: string, now: int, later: int)
    requires now <= later
    requires if op.Delete? then key !in op.keys else op.key != key || op.Get? || op.Exists? || op.Ttl?
    ensures SameAt(After(m, op, now), m, key, later)
  {
    FoundAfter(m, op, key, now, later);
    PlainKeepsOthers(op, Aged(m, now), key, now);
    SameFound(After(m, op, now), m, key, later);
  }

  lemma SweepsAreUnseen(m: Entries, key: string, now: int, later: int)
    requires now <= later
    ensures SameAt(StateAfter(m, [Sweep(now)]), m, key, later)
  {
  }

  lemma ExistsRule(m: Entries, key: string, now: int)
    ensures Reply(m, Exists(key), now) == Flag(Seen(m, key, now) != Miss)
  {
  }

  // ---- Writes ------------------------------------------------------------------------------------

  /** A put key has the new value until its ttl is over, for good without one; no earlier expiry is left. */
  lemma PutRule(m: Entries, key: string, value: Stored, ttl: Option<int>, now: int, later: int)
    requires now <= later
    ensures Reply(m, Put(key, value, ttl), now) == Done
    ensures Lasts(After(m, Put(key, value, ttl), now), key, value, Until(now, ttl), later)
  {
  }

  /** add is put for a missing key, and answers whether it was missing. */
  lemma AddRule(m: Entries, key: string, value: Stored, ttl: Option<int>, now: int, later: int)
    requires now <= later
    ensures var op := Add(key, value, ttl); var missing := Seen(m, key, now) == Miss;
            && Reply(m, op, now) == Flag(missing)
            && (missing ==> Lasts(After(m, op, now), key, value, Until(now, ttl), later))
            && (!missing ==> SameAt(After(m, op, now), m, key, later))
  {
  }

  /** replace is put for a key that is there, and answers whether it was. */
  lemma ReplaceRule(m: Entries, key: string, value: Stored, ttl: Option<int>, now: int, later: int)
    requires now <= later
    ensures var op := Replace(key, value, ttl); var missing := Seen(m, key, now) == Miss;
            && Reply(m, op, now) == Flag(!missing)
            && (!missing ==> Lasts(After(m, op, now), key, value, Until(now, ttl), later))
            && (missing ==> Seen(After(m, op, now), key, later) == Miss)
  {
  }

  /** getset answers what a get would have, and the new value has no expiry. */
  lemma GetSetRule(m: Entries, key: string, value: Stored, now: int, later: int)
    requires now <= later
    ensures Reply(m, GetSet(key, value), now) == Seen(m, key, now)
    ensures Lasts(After(m, GetSet(key, value), now), key, value, None, later)
  {
  }

  /** expire gives a key that is there a new end, whatever it had before. */
  lemma ExpireRule(m: Entries, key: string, millis: int, now: int, later: int)
    requires now <= later
    ensures var op := Expire(key, millis); var was := Seen(m, key, now);
            && Reply(m, op, now) == Flag(was.Hit?)
            && (was.Hit? ==> Lasts(After(m, op, now), key, was.value, Some(now + millis), later))
            && (!was.Hit? ==> Seen(After(m, op, now), key, later) == Miss)
  {
  }

  /** persist takes the end away, and answers whether there was one. */
  lemma PersistRule(m: Entries, key: string, now: int, later: int)
    requires now <= later
    ensures var op := Persist(key);
            && Reply(m, op, now) == Flag(Remaining(m, key, now).Left?)
            && (Remaining(m, key, now).Left? ==>
                  Seen(m, key, now).Hit? && Lasts(After(m, op, now), key, Seen(m, key, now).value, None, later))
            && (!Remaining(m, key, now).Left? ==> SameAt(After(m, op, now), m, key, later))
  {
  }

  /** delete answers how many of the keys a get would have found, and none is found afterwards. */
  lemma DeleteRule(m: Entries, keys: set<string>, key: string, now: int, later: int)
    requires now <= later
    ensures Reply(m, Delete(keys), now) == Count(|set k | k in keys && Seen(m, k, now) != Miss|)
    ensures key in keys ==> Seen(After(m, Delete(keys), now), key, later) == Miss
  {
    OneCall(m, Delete(keys), now);
    SeenIsAged(m, keys, now);
    FoundAfter(m, Delete(keys), key, now, later);
    Looks(After(m, Delete(keys), now), key, later);
  }

  lemma SeenIsAged(m: Entries, keys: set<string>, now: int)
    ensures (set k | k in keys && Seen(m, k, now) != Miss) == keys * Aged(m, now).Keys
  {
    forall k ensures Seen(m, k, now) != Miss <==> k in Aged(m, now) {
      Looks(m, k, now);
    }
  }

  /** The value is a counter's text for this integer. */
  ghost predicate IsCounter(answer: Answer, n: int) {
    answer.Hit? && answer.value.IntText? && Decimal.Parse(answer.value.text) == Some(n)
  }

  predicate Is64Bit(n: int) {
    -0x8000_0000_0000_0000 <= n < 0x8000_0000_0000_0000
  }

  /** The key is missing and counts as 0, or holds the text of `n`. */
  ghost predicate Counts(m: Entries, key: string, n: int, now: int) {
    (Seen(m, key, now) == Miss && n == 0) || IsCounter(Seen(m, key, now), n)
  }

  /** incr answers the sum, 0 being what a missing key counts; a sum past 64 bits cannot be read. */
  lemma IncrReply(m: Entries, key: string, amount: int, n: int, now: int)
    requires Is64Bit(amount) && Is64Bit(n) && Counts(m, key, n, now)
    ensures Reply(m, Incr(key, amount), now) == if Is64Bit(n + amount) then Number(n + amount) else Unreadable
  {
  }

  /** A new counter has no expiry; one that is there keeps its own, and holds the sum or a real number's text. */
  lemma IncrRule(m: Entries, key: string, amount: int, n: int, now: int, later: int)
    requires now <= later && Is64Bit(amount) && Is64Bit(n) && Counts(m, key, n, now)
    ensures var after := After(m, Incr(key, amount), now);
            && (Seen(m, key, now) == Miss ==>
                  IsCounter(Seen(after, key, later), amount) && Remaining(after, key, later) == NoExpiry)
            && (Seen(m, key, now) != Miss ==> Remaining(after, key, later) == Remaining(m, key, later))
            && (Seen(m, key, now) != Miss && Remaining(m, key, later) != Miss ==>
                  if Is64Bit(n + amount) then IsCounter(Seen(after, key, later), n + amount)
                  else Seen(after, key, later) == Hit(RealText))
  {
  }

  /** A counter that no longer is one, or never fitted 64 bits, stays so: the answer cannot be read. */
  lemma IncrUnreadable(m: Entries, key: string, amount: int, n: int, now: int, later: int)
    requires now <= later && Is64Bit(amount)
    requires Seen(m, key, now) == Hit(RealText) || (IsCounter(Seen(m, key, now), n) && !Is64Bit(n))
    ensures var op := Incr(key, amount);
            && Reply(m, op, now) == Unreadable
            && Remaining(After(m, op, now), key, later) == Remaining(m, key, later)
            && (Remaining(m, key, later) != Miss ==> Seen(After(m, op, now), key, later) == Hit(RealText))
  {
  }

  /** An amount that is no 64-bit integer, or a key that holds something else, is refused and nothing written. */
  lemma IncrRefusals(m: Entries, key: string, amount: int, now: int, later: int)
    requires now <= later
    ensures var op := Incr(key, amount); var was := Seen(m, key, now);
            && (Reply(m, op, now) == BadAmount <==> !Is64Bit(amount))
            && (Reply(m, op, now) == NotInteger <==>
                  Is64Bit(amount) && was.Hit? && !was.value.IntText? && !was.value.RealText?)
            && (Reply(m, op, now) == BadAmount || Reply(m, op, now) == NotInteger ==>
                  SameAt(After(m, op, now), m, key, later))
  {
  }

  // ---- Hashes ------------------------------------------------------------------------------------

  /** What a get shows of a key, as the row a hash operation finds there. */
  function FoundRow(was: Answer): Option<HashSpec.Row> {
    if was.Hit? then Some(HashSpec.Row(ContentOf(was.value), 0, None, 0, 0, 0)) else None
  }

  /** A value that is not JSON is refused under its own type code: 2 for integers. */
  lemma OtherTypesAreRefused(m: Entries, key: string, op: HashSpec.Op, ttl: Option<int>, now: int)
    requires Seen(m, key, now).Hit? && !Seen(m, key, now).value.Json? && op.HSet?
    ensures var v := Seen(m, key, now).value;
            Reply(m, Hash(key, op, ttl), now)
            == HashAnswer(Err(HashSpec.WrongType(if v.Other? then v.valueType else 2, None)))
  {
  }

  /** A hash operation answers as on the row a get shows. */
  lemma HashReply(m: Entries, key: string, op: HashSpec.Op, ttl: Option<int>, now: int)
    ensures Reply(m, Hash(key, op, ttl), now)
            == HashAnswer(HashSpec.Perform(HashSpec.Call(op, now, None, false), FoundRow(Seen(m, key, now))).1)
  {
  }

  /**
   * And it leaves what it leaves on that row. A new hash lasts for the call's ttl, for good without one;
   * on a hash that is there the ttl is not looked at.
   */
  lemma HashRule(m: Entries, key: string, op: HashSpec.Op, ttl: Option<int>, now: int, later: int)
    requires now <= later
    ensures var was := Seen(m, key, now); var after := After(m, Hash(key, op, ttl), now);
            var row := HashSpec.Perform(HashSpec.Call(op, now, None, false), FoundRow(was)).0;
            && (row == FoundRow(was) ==> SameAt(after, m, key, later))
            && (row != FoundRow(was) ==> row.Some? && row.value.content.Hash?)
            && (row != FoundRow(was) && was == Miss ==>
                  Lasts(after, key, Json(row.value.content), Until(now, ttl), later))
            && (row != FoundRow(was) && was != Miss ==>
                  && Remaining(after, key, later) == Remaining(m, key, later)
                  && (Remaining(m, key, later) != Miss ==> Seen(after, key, later) == Hit(Json(row.value.content))))
  {
    var live := Aged(m, now);
    var was := Seen(m, key, now);
    var call := Hash(key, op, ttl);
    Looks(m, key, now);
    PerformIsPlain(op, key, ttl, live, now, FoundRow(was));
    if Plain(call, live, now).0 == live {
      FoundAfter(m, call, key, now, later);
      SameFound(After(m, call, now), m, key, later);
    } else {
      WrittenLasts(m, call, key, Plain(call, live, now).0[key], now, later);
      Looks(m, key, later);
    }
  }

  lemma PerformIsPlain(op: HashSpec.Op, key: string, ttl: Option<int>, live: Entries, now: int,
                       was: Option<HashSpec.Row>)
    requires was == if key in live then FoundRow(Hit(live[key].value)) else None
    ensures var (row, r) := HashSpec.Perform(HashSpec.Call(op, now, None, false), was);
            var (after, answer) := Plain(Hash(key, op, ttl), live, now);
            && answer == HashAnswer(r)
            && (row == was ==> after == live)
            && (row != was ==>
                  && row.Some? && row.value.content.Hash?
                  && after == live[key := Entry(Json(row.value.content),
                                                if key in live then live[key].expiresAt else Until(now, ttl))])
  {
  }

  // ---- Two calls of a run ---------------------------------------------------------------------------

  /** A put with a ttl, and a ttl asked later in the same run. */
  lemma PutThenTtl(m: Entries, key: string, value: Stored, ttl: Option<int>, now: int, later: int)
    requires now <= later
    ensures Answers(m, [Call(now, Put(key, value, ttl)), Call(later, Ttl(key))])
            == [Done, if ttl.None? then NoExpiry
                      else if later < now + ttl.value then Left(now + ttl.value - later) else Miss]
  {
  }
}
