/**
 * The store as its users see it: a map from keys to entries, each of which vanishes exactly at its
 * expiry time. There are no rows that have outlived their expiry, no sweeps and no lazy deletes.
 */
module CacheModel {
  import opened Prelude
  import Decimal
  import HashDoc
  import HashSpec

  type JsonContent = c: HashSpec.Content | !c.Foreign? witness HashSpec.Malformed

  /** Type codes other than the integer's and JSON's. */
  type OtherType = t: int | t != INT_TYPE && t != HashSpec.JSON_TYPE witness 0

  const INT_TYPE := 2

  /**
   * A stored value. An integer's text is always plain decimal: only integers are written with that type.
   * `RealText` is what an overflowing increment leaves in a row of integer type:
   * the text of a floating-point number, whose digits are not modelled.
   */
  datatype Stored = Json(content: JsonContent)
      | IntText(text: Decimal.DecimalText)
      | RealText | Other(valueType: OtherType, bytes: string)

  predicate IsIntType(v: Stored) {
    v.IntText? || v.RealText?
  }

  function ContentOf(v: Stored): HashSpec.Content {
    match v
    case Json(c) => c
    case Other(t, _) => HashSpec.Foreign(t)
    case _ => HashSpec.Foreign(INT_TYPE)
  }

  datatype Entry = Entry(value: Stored, expiresAt: Option<int>)

  type Entries = map<string, Entry>

  datatype Op =
    | Get(key: string)
    | Exists(key: string)
    | Ttl(key: string)
    | Put(key: string, value: Stored, ttl: Option<int>)
    | Add(key: string, value: Stored, ttl: Option<int>)
    | Replace(key: string, value: Stored, ttl: Option<int>)
    | GetSet(key: string, value: Stored)
    | Expire(key: string, millis: int)
    | Persist(key: string)
    | Incr(key: string, amount: int)
    | Hash(key: string, op: HashSpec.Op, ttl: Option<int>)
    | Delete(keys: set<string>)

  datatype Answer =
    | Done
    | Hit(value: Stored)
    | Miss
    | Flag(yes: bool)
    | Count(n: nat)
    | NoExpiry
    | Left(millis: int)
    | Number(sum: int)
    | NotInteger
    | BadAmount
    | Unreadable
    | HashAnswer(r: Result<HashSpec.Outcome, HashSpec.Error>)

  predicate Alive(expiresAt: Option<int>, now: int) {
    expiresAt.None? || expiresAt.value > now
  }

  /** What time alone does to the store. */
  function Aged(m: Entries, now: int): Entries {
    map k | k in m && Alive(m[k].expiresAt, now) :: m[k]
  }

  function ExpiresAt(ttl: Option<int>, now: int): Option<int> {
    match ttl
    case None => None
    case Some(t) => Some(now + t)
  }

  function Lookup(m: Entries, key: string): Answer {
    if key in m then Hit(m[key].value) else Miss
  }

  /** One operation on a store all of whose entries are alive: no branch looks at an expiry but ttl's and persist's. */
  function Plain(op: Op, m: Entries, now: int): (Entries, Answer) {
    match op
    case Get(k) => (m, Lookup(m, k))
    case Exists(k) => (m, Flag(k in m))
    case Ttl(k) =>
      (m, if k !in m then Miss else if m[k].expiresAt.None? then NoExpiry else Left(m[k].expiresAt.value - now))
    case Put(k, v, ttl) => (m[k := Entry(v, ExpiresAt(ttl, now))], Done)
    case Add(k, v, ttl) => (if k in m then m else m[k := Entry(v, ExpiresAt(ttl, now))], Flag(k !in m))
    case Replace(k, v, ttl) => (if k in m then m[k := Entry(v, ExpiresAt(ttl, now))] else m, Flag(k in m))
    case GetSet(k, v) => (m[k := Entry(v, None)], Lookup(m, k))
    case Expire(k, ms) => (if k in m then m[k := Entry(m[k].value, Some(now + ms))] else m, Flag(k in m))
    case Persist(k) =>
      var held := k in m && m[k].expiresAt.Some?;
      (if held then m[k := Entry(m[k].value, None)] else m, Flag(held))
    case Incr(k, a) =>
      if !InInt64(a) then (m, BadAmount)
      else if k !in m then (m[k := Entry(IntText(Decimal.Encode(a)), None)], Number(a))
      else if !IsIntType(m[k].value) then (m, NotInteger)
      else (m[k := Entry(Added(m[k].value, a), m[k].expiresAt)], Sum(m[k].value, a))
    case Hash(k, h, ttl) =>
      var (doc, r) := OnHash(h, if k in m then Some(ContentOf(m[k].value)) else None);
      (if doc.None? then m
       else m[k := Entry(Json(HashSpec.Hash(doc.value)), if k in m then m[k].expiresAt else ExpiresAt(ttl, now))],
       HashAnswer(r))
    case Delete(ks) => (map k | k in m && k !in ks :: m[k], Count(|ks * m.Keys|))
  }

  /** The integer a counter's text denotes, when SQLite can hold it as one. */
  function Value(v: Stored): Option<int> {
    if v.IntText? && InInt64(Decimal.Parse(v.text).value) then Decimal.Parse(v.text) else None
  }

  function Added(v: Stored, amount: int): Stored {
    if Value(v).Some? && InInt64(Value(v).value + amount) then IntText(Decimal.Encode(Value(v).value + amount))
    else RealText
  }

  function Sum(v: Stored, amount: int): Answer {
    if Value(v).Some? && InInt64(Value(v).value + amount) then Number(Value(v).value + amount) else Unreadable
  }

  /** A hash operation on a key's content: the new document, if one is written, and the answer. */
  function OnHash(op: HashSpec.Op, content: Option<HashSpec.Content>
    ): (Option<HashDoc.Doc>, Result<HashSpec.Outcome, HashSpec.Error>) {
    if HashSpec.EarlyAnswer(op).Some? then (None, HashSpec.EarlyAnswer(op).value)
    else if content.Some? && !content.value.Hash? then (None, Err(HashSpec.TypeError(content.value)))
    else if content.None? && op.HDel? then (None, Ok(HashSpec.Count(0)))
    else
      match HashSpec.OnDoc(op, if content.Some? then content.value.doc else [])
      case Err(e) => (None, Err(e))
      case Ok(eff) => (if content.None? || eff.changed then Some(eff.doc) else None, Ok(eff.outcome))
  }

  // ---- Runs -------------------------------------------------------------------------------------

  /** A call or a sweep, at a clock reading. */
  datatype Event = Call(now: int, op: Op) | Sweep(now: int)

  ghost predicate ClockRuns(start: int, events: seq<Event>) {
    (events != [] ==> start <= events[0].now)
    && forall i, j :: 0 <= i < j < |events| ==> events[i].now <= events[j].now
  }

  predicate IsDelete(e: Event) {
    e.Call? && e.op.Delete?
  }

  /** The clock after a run. */
  function Clock(start: int, events: seq<Event>): int {
    if events == [] then start else events[|events| - 1].now
  }

  function Step(e: Event, m: Entries): (Entries, Answer) {
    var live := Aged(m, e.now);
    match e
    case Sweep(_) => (live, Done)
    case Call(now, op) =>
      var (after, answer) := Plain(op, live, now);
      (Aged(after, now), answer)
  }

  function StateAfter(m: Entries, events: seq<Event>): Entries
    decreases |events|
  {
    if events == [] then m else Step(events[|events| - 1], StateAfter(m, events[..|events| - 1])).0
  }

  function Answers(m: Entries, events: seq<Event>): (a: seq<Answer>)
    ensures |a| == |events|
    decreases |events|
  {
    if events == [] then []
    else
      var front := events[..|events| - 1];
      Answers(m, front) + [Step(events[|events| - 1], StateAfter(m, front)).1]
  }
}
