/**
 * What each hash operation means: one abstract step on the row at a key, and the promises made
 * about expiry, failure and untouched fields.
 */
module HashSpec {
  import opened Prelude
  import opened OrderedFields
  import opened HashDoc

  type RootKind = k: Kind | k != Object witness Text

  /** What a row's value holds: a JSON object, other JSON, broken JSON, or another value type. */
  datatype Content = Hash(doc: Doc) | Scalar(kind: RootKind) | Malformed | Foreign(valueType: int)

  datatype Row = Row(content: Content, createdAt: int, expiresAt: Option<int>, lastAccessed: int,
                     accessCount: nat, size: nat)

  const JSON_TYPE := 4

  function ValueType(c: Content): int {
    if c.Foreign? then c.valueType else JSON_TYPE
  }

  datatype Op =
    | HSet(field: string, value: Value)
    | HSetNX(field: string, value: Value)
    | HDel(fields: seq<string>)
    | HIncrBy(field: string, amount: int)
    | HSetMany(pairs: seq<Pair>)

  /** One call: the operation, the clock it read, the expiry a fresh row would get. */
  datatype Call = Call(op: Op, now: int, exp: Option<int>, full: bool)

  datatype Outcome = Flag(yes: bool) | Count(removed: nat) | Number(n: int) | Done

  datatype Error = WrongType(valueType: int, root: Option<string>) | CacheFull | NotInteger | Overflow

  predicate Live(row: Row, now: int) {
    row.expiresAt.None? || row.expiresAt.value > now
  }

  predicate LiveAt(row: Option<Row>, now: int) {
    row.Some? && Live(row.value, now)
  }

  function KindName(k: Kind): string {
    match k
    case Text => "text"
    case True => "true"
    case False => "false"
    case Null => "null"
    case Integer => "integer"
    case Real => "real"
    case Array => "array"
    case Object => "object"
  }

  function TypeError(c: Content): Error {
    WrongType(ValueType(c), if c.Scalar? then Some(KindName(c.kind)) else None)
  }

  /** A field write: new document, one more access, nothing else. */
  function Touch(row: Row, doc: Doc, now: int): Row {
    row.(content := Hash(doc), lastAccessed := now, accessCount := row.accessCount + 1, size := SizeOf(doc))
  }

  function Create(doc: Doc, now: int, exp: Option<int>): Row {
    Row(Hash(doc), now, exp, now, 0, SizeOf(doc))
  }

  function DelAll(doc: Doc, fields: seq<string>): Doc
    decreases |fields|
  {
    if fields == [] then doc else Del(DelAll(doc, fields[..|fields| - 1]), fields[|fields| - 1])
  }

  /** How many of the fields a left-to-right deletion finds. */
  function Removed(doc: Doc, fields: seq<string>): nat
    decreases |fields|
  {
    if fields == [] then 0
    else
      Removed(doc, fields[..|fields| - 1])
      + if Has(DelAll(doc, fields[..|fields| - 1]), fields[|fields| - 1]) then 1 else 0
  }

  /** The operation on a document: the new document (if it changes) and the answer. */
  datatype Effect = Effect(doc: Doc, changed: bool, outcome: Outcome)

  function OnDoc(op: Op, doc: Doc): Result<Effect, Error> {
    match op
    case HSet(f, v) => Ok(Effect(Set(doc, f, v), true, Flag(!Has(doc, f))))
    case HSetNX(f, v) => if Has(doc, f) then Ok(Effect(doc, false, Flag(false)))
                         else Ok(Effect(Set(doc, f, v), true, Flag(true)))
    case HDel(fs) => Ok(Effect(DelAll(doc, fs), Removed(doc, fs) > 0, Count(Removed(doc, fs))))
    case HIncrBy(f, a) =>
      (match Get<string, Value>(doc, f)
       case None => if InInt64(a) then Ok(Effect(Set(doc, f, Int(a)), true, Number(a))) else Err(Overflow)
       case Some(Int(n)) =>
         if InInt64(n + a) then Ok(Effect(Set(doc, f, Int(n + a)), true, Number(n + a))) else Err(Overflow)
       case Some(Other(_, _)) => Err(NotInteger))
    case HSetMany(pairs) => Ok(Effect(SetAll(doc, pairs), true, Done))
  }

  /** Calls answered before the row is looked at: nothing to delete or set, an amount out of range. */
  function EarlyAnswer(op: Op): Option<Result<Outcome, Error>> {
    match op
    case HDel(fs) => if fs == [] then Some(Ok(Count(0))) else None
    case HSetMany(pairs) => if pairs == [] then Some(Ok(Done)) else None
    case HIncrBy(_, a) => if InInt64(a) then None else Some(Err(Overflow))
    case _ => None
  }

  /** The whole call on the row at its key. */
  function Perform(call: Call, row: Option<Row>): (Option<Row>, Result<Outcome, Error>) {
    if EarlyAnswer(call.op).Some? then (row, EarlyAnswer(call.op).value)
    else if LiveAt(row, call.now) then
      if !row.value.content.Hash? then (row, Err(TypeError(row.value.content)))
      else
        match OnDoc(call.op, row.value.content.doc)
        case Err(e) => (row, Err(e))
        case Ok(eff) => (if eff.changed then Some(Touch(row.value, eff.doc, call.now)) else row, Ok(eff.outcome))
    else if call.op.HDel? then (row, Ok(Count(0)))
    else if call.full then (row, Err(CacheFull))
    else
      match OnDoc(call.op, [])
      case Err(e) => (row, Err(e))
      case Ok(eff) => (Some(Create(eff.doc, call.now, call.exp)), Ok(eff.outcome))
  }

  // ---- Promises ---------------------------------------------------------------------------------

  /** A field write never changes the expiry (or the creation time) of a live row. */
  lemma ExpiryIsKept(call: Call, row: Option<Row>)
    requires LiveAt(row, call.now)
    ensures var after := Perform(call, row).0;
            && after.Some?
            && after.value.expiresAt == row.value.expiresAt
            && after.value.createdAt == row.value.createdAt
            && after.value.accessCount <= row.value.accessCount + 1
            && (after != row <==> after.value.accessCount == row.value.accessCount + 1)
  {
  }

  /** An expired row answers exactly as a missing one and leaves nothing of itself behind. */
  lemma ExpiredIsAbsent(call: Call, row: Row)
    requires !Live(row, call.now)
    ensures var (after, r) := Perform(call, Some(row));
            var (after', r') := Perform(call, None);
            && r == r'
            && (after == after' || (after == Some(row) && after'.None?))
  {
  }

  /** A failed call writes nothing. */
  lemma FailureWritesNothing(call: Call, row: Option<Row>)
    ensures Perform(call, row).1.Err? ==> Perform(call, row).0 == row
  {
  }

  ghost predicate Sane(row: Option<Row>) {
    row.Some? && row.value.content.Hash? ==>
      UniqueKeys(row.value.content.doc) && row.value.size == SizeOf(row.value.content.doc)
  }

  lemma OnDocKeepsUnique(op: Op, doc: Doc)
    requires UniqueKeys(doc)
    ensures OnDoc(op, doc).Ok? ==> UniqueKeys(OnDoc(op, doc).value.doc)
  {
    match op
    case HSet(f, v) => SetLaw(doc, f, v, f);
    case HSetNX(f, v) => SetLaw(doc, f, v, f);
    case HDel(fs) => DelAllLaw(doc, fs, "");
    case HIncrBy(f, a) =>
      var base := if Get(doc, f).Some? && Get(doc, f).value.Int? then Get(doc, f).value.n else 0;
      SetLaw(doc, f, Int(base + a), f);
    case HSetMany(pairs) => SetAllUnique(doc, pairs);
  }

  /** Unique keys, and a size that is the new document's, survive every operation. */
  lemma SanityIsKept(call: Call, row: Option<Row>)
    requires Sane(row)
    ensures Sane(Perform(call, row).0)
  {
    if LiveAt(row, call.now) && row.value.content.Hash? {
      OnDocKeepsUnique(call.op, row.value.content.doc);
    } else {
      OnDocKeepsUnique(call.op, []);
    }
  }

  lemma {:induction false} DelAllLaw(doc: Doc, fields: seq<string>, other: string)
    requires UniqueKeys(doc)
    ensures UniqueKeys(DelAll(doc, fields))
    ensures |DelAll(doc, fields)| == |doc| - Removed(doc, fields)
    ensures other in fields ==> !Has(DelAll(doc, fields), other)
    ensures other !in fields ==> Get(DelAll(doc, fields), other) == Get(doc, other)
    decreases |fields|
  {
    if fields != [] {
      var n := |fields| - 1;
      DelAllLaw(doc, fields[..n], other);
      DelLaw(DelAll(doc, fields[..n]), fields[n], other);
      DelLaw(DelAll(doc, fields[..n]), fields[n], fields[n]);
      assert fields == fields[..n] + [fields[n]];
      if other != fields[n] && other in fields[..n] {
        assert Get(DelAll(doc, fields[..n]), other).None?;
      }
    }
  }

  /** hdel's count is the number of distinct named fields that were there. */
  lemma {:induction false} RemovedCounts(doc: Doc, fields: seq<string>)
    requires UniqueKeys(doc)
    ensures Removed(doc, fields) == |set f | f in fields && Has(doc, f)|
    decreases |fields|
  {
    if fields != [] {
      var n := |fields| - 1;
      var front, last := fields[..n], fields[n];
      RemovedCounts(doc, front);
      DelAllLaw(doc, front, last);
      assert fields == front + [last];
      var was := set f | f in front && Has(doc, f);
      var now := set f | f in fields && Has(doc, f);
      if Has(doc, last) && last !in front {
        assert now == was + {last};
        assert Get(doc, last).Some? && Get(DelAll(doc, front), last).Some?;
      } else {
        assert now == was;
        if last !in front {
          assert Get(doc, last).None? && Get(DelAll(doc, front), last).None?;
        }
      }
    }
  }

  /** The fields an operation is about. */
  predicate Names(op: Op, f: string) {
    match op
    case HSet(g, _) => f == g
    case HSetNX(g, _) => f == g
    case HDel(fs) => f in fs
    case HIncrBy(g, _) => f == g
    case HSetMany(pairs) => exists i :: 0 <= i < |pairs| && pairs[i].key == f
  }

  /** On a live hash an operation leaves every field it does not name exactly as it was. */
  lemma OtherFieldsAreKept(call: Call, row: Option<Row>, f: string)
    requires LiveAt(row, call.now) && row.value.content.Hash? && UniqueKeys(row.value.content.doc)
    requires !Names(call.op, f)
    ensures var after := Perform(call, row).0;
            && after.Some? && Live(after.value, call.now) && after.value.content.Hash?
            && UniqueKeys(after.value.content.doc)
            && Get(after.value.content.doc, f) == Get(row.value.content.doc, f)
  {
    var doc := row.value.content.doc;
    match call.op
    case HSet(g, v) => SetLaw(doc, g, v, f);
    case HSetNX(g, v) => SetLaw(doc, g, v, f);
    case HDel(fs) => DelAllLaw(doc, fs, f);
    case HIncrBy(g, a) =>
      var base := if Get(doc, g).Some? && Get(doc, g).value.Int? then Get(doc, g).value.n else 0;
      SetLaw(doc, g, Int(base + a), f);
    case HSetMany(pairs) =>
      SetAllUnique(doc, pairs);
      SetAllKeeps(doc, pairs, f);
  }

  lemma {:induction false} SetAllKeeps(doc: Doc, pairs: seq<Pair>, f: string)
    requires forall i :: 0 <= i < |pairs| ==> pairs[i].key != f
    ensures Get(SetAll(doc, pairs), f) == Get(doc, f)
    decreases |pairs|
  {
    if pairs != [] {
      var n := |pairs| - 1;
      SetAllKeeps(doc, pairs[..n], f);
      SetLaw(SetAll(doc, pairs[..n]), pairs[n].key, pairs[n].value, f);
    }
  }

  /** Setting many fields gives each named field its last value. */
  lemma {:induction false} SetAllReadsBack(doc: Doc, pairs: seq<Pair>, i: nat)
    requires i < |pairs| && forall j :: i < j < |pairs| ==> pairs[j].key != pairs[i].key
    ensures Get(SetAll(doc, pairs), pairs[i].key) == Some(pairs[i].value)
    decreases |pairs|
  {
    var n := |pairs| - 1;
    SetLaw(SetAll(doc, pairs[..n]), pairs[n].key, pairs[n].value, pairs[i].key);
    if i < n {
      SetAllReadsBack(doc, pairs[..n], i);
    }
  }
}
