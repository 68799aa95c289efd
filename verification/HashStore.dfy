/**
 * The two implementations of the hash operations over one table: guarded SQL statements, and
 * read-modify-write of a parsed document under the write lock. Each is proved against HashSpec.
 */
module HashStore {
  import opened Prelude
  import opened OrderedFields
  import opened HashDoc
  import opened HashSpec

  // ---- SQL fragments as row functions -------------------------------------------------------

  predicate IsObj(row: Row) {
    row.content.Hash?
  }

  function DocOf(row: Option<Row>): Doc {
    if row.Some? && IsObj(row.value) then row.value.content.doc else []
  }

  /** json_type(doc, path), NULL unless the row is an object with that field. */
  function FieldType(row: Row, f: string): Option<Kind> {
    if !IsObj(row) then None
    else match Get<string, Value>(row.content.doc, f)
      case None => None
      case Some(v) => Some(KindOf(v))
  }

  /**
   * The hash UPSERT: inserts `created` at a missing key, restarts an expired row with it, or rewrites
   * a live row to `updated` when `guard` holds. Returns the row and the number of changes.
   */
  function Upsert(row: Option<Row>, now: int, exp: Option<int>, created: Doc, updated: Doc, guard: bool
    ): (Option<Row>, nat) {
    if row.None? || !Live(row.value, now) then (Some(Create(created, now, exp)), 1)
    else if guard then (Some(Touch(row.value, updated, now)), 1)
    else (row, 0)
  }

  /** The guarded delete of one field; `bump` is added to the access count. */
  function RemoveField(row: Option<Row>, now: int, f: string, bump: nat): (Option<Row>, nat) {
    if LiveAt(row, now) && FieldType(row.value, f).Some? then
      var doc := Del(row.value.content.doc, f);
      (Some(row.value.(content := Hash(doc), size := SizeOf(doc), lastAccessed := now,
                       accessCount := row.value.accessCount + bump)), 1)
    else (row, 0)
  }

  /** SQLite integer addition: exact within int64, otherwise the result is a REAL. */
  datatype Number64 = Integer64(n: int) | Real64

  function SqlInt(n: int): Number64 {
    if InInt64(n) then Integer64(n) else Real64
  }

  function SqlAdd(a: Number64, b: Number64): Number64 {
    if a.Integer64? && b.Integer64? then SqlInt(a.n + b.n) else Real64
  }

  /** json_extract of an integer field, 0 when there is none. */
  function StoredNumber(row: Option<Row>, f: string): Number64 {
    match Get<string, Value>(DocOf(row), f)
    case Some(Int(n)) => SqlInt(n)
    case None => Integer64(0)
    case Some(Other(_, _)) => Real64
  }

  /** A stored integer SQLite can hold as an integer. */
  predicate StoredFits(row: Option<Row>, f: string) {
    match Get<string, Value>(DocOf(row), f)
    case Some(Int(n)) => InInt64(n)
    case _ => true
  }

  /** The guard of the increment: the field is absent or an integer, and so is the sum. */
  predicate IncrGuard(row: Option<Row>, f: string, amount: int) {
    row.Some? && IsObj(row.value)
    && (FieldType(row.value, f).None? || FieldType(row.value, f).value == Integer)
    && SqlAdd(StoredNumber(row, f), Integer64(amount)).Integer64?
  }

  /** Creating the field from nothing. */
  lemma IncrCreates(row: Option<Row>, call: Call)
    requires call.op.HIncrBy? && InInt64(call.op.amount) && !LiveAt(row, call.now) && !call.full
    ensures var doc := [Field(call.op.field, Int(call.op.amount))];
            && Perform(call, row) == (Some(Create(doc, call.now, call.exp)), Ok(Number(call.op.amount)))
            && Get(doc, call.op.field) == Some(Int(call.op.amount))
  {
    var HIncrBy(f, a) := call.op;
    assert Set([], f, Int(a)) == [Field(f, Int(a))];
    SetLaw([], f, Int(a), f);
  }

  /** What the abstract increment does to a live row. */
  lemma IncrOnLive(row: Option<Row>, call: Call)
    requires call.op.HIncrBy? && InInt64(call.op.amount) && LiveAt(row, call.now)
    ensures var f := call.op.field;
            var stored := Get(DocOf(row), f);
            var sum := call.op.amount + if stored.Some? && stored.value.Int? then stored.value.n else 0;
            Perform(call, row)
            == if !IsObj(row.value) then (row, Err(TypeError(row.value.content)))
               else if stored.Some? && stored.value.Other? then (row, Err(NotInteger))
               else if InInt64(sum) then
                 (Some(Touch(row.value, Set(DocOf(row), f, Int(sum)), call.now)), Ok(Number(sum)))
               else (row, Err(Overflow))
  {
  }

  /** The increment's UPSERT does what the operation means whenever the stored integer fits. */
  lemma IncrUpsertIsRight(row: Option<Row>, call: Call)
    requires call.op.HIncrBy? && InInt64(call.op.amount) && (LiveAt(row, call.now) || !call.full)
    ensures var HIncrBy(f, a) := call.op;
            var guard := IncrGuard(row, f, a);
            var sum := SqlAdd(StoredNumber(row, f), Integer64(a));
            var (after, changes) := Upsert(row, call.now, call.exp, [Field(f, Int(a))],
                                           if guard then Set(DocOf(row), f, Int(sum.n)) else [], guard);
            && (changes == 1 ==>
                  && after.Some? && IsObj(after.value)
                  && Get(DocOf(after), f).Some? && Get(DocOf(after), f).value.Int?
                  && Perform(call, row) == (after, Ok(Number(Get(DocOf(after), f).value.n))))
            && (changes != 1 ==>
                  && after == row && LiveAt(row, call.now)
                  && (IsObj(row.value) && StoredFits(row, f) ==>
                        Perform(call, row)
                          == (row, Err(if FieldType(row.value, f) == Some(Integer) then Overflow else NotInteger)))
                  && (!IsObj(row.value) ==> Perform(call, row) == (row, Err(TypeError(row.value.content)))))
            && (LiveAt(row, call.now) && !StoredFits(row, f) ==>
                  changes != 1 && IsObj(row.value) && FieldType(row.value, f) == Some(Integer))
  {
    if LiveAt(row, call.now) {
      IncrOnLive(row, call);
      var sum := SqlAdd(StoredNumber(row, call.op.field), Integer64(call.op.amount));
      SetLaw(DocOf(row), call.op.field, Int(if sum.Integer64? then sum.n else 0), call.op.field);
    } else {
      IncrCreates(row, call);
    }
  }

  /** What the statement of an increment leaves and answers. */
  function NativeIncr(call: Call, row: Option<Row>): (Option<Row>, Result<Outcome, Error>)
    requires call.op.HIncrBy?
  {
    if InInt64(call.op.amount) && LiveAt(row, call.now) && !StoredFits(row, call.op.field) then (row, Err(Overflow))
    else Perform(call, row)
  }

  // ---- Deduplication --------------------------------------------------------------------------

  function Dedupe(items: seq<string>): seq<string>
    decreases |items|
  {
    if items == [] then []
    else
      var front := Dedupe(items[..|items| - 1]);
      if items[|items| - 1] in front then front else front + [items[|items| - 1]]
  }

  lemma {:induction false} DedupeElements(items: seq<string>)
    ensures forall x :: x in Dedupe(items) <==> x in items
    decreases |items|
  {
    if items != [] {
      DedupeElements(items[..|items| - 1]);
      assert items == items[..|items| - 1] + [items[|items| - 1]];
    }
  }

  /** Naming a field twice in one hdel deletes and counts it once either way. */
  lemma {:induction false} DedupeIsHarmless(doc: Doc, fields: seq<string>)
    requires UniqueKeys(doc)
    ensures DelAll(doc, Dedupe(fields)) == DelAll(doc, fields)
    ensures Removed(doc, Dedupe(fields)) == Removed(doc, fields)
    ensures fields != [] ==> Dedupe(fields) != []
    decreases |fields|
  {
    if fields != [] {
      var front, last := fields[..|fields| - 1], fields[|fields| - 1];
      DedupeIsHarmless(doc, front);
      DedupeElements(front);
      if last in front {
        DelAllLaw(doc, front, last);
      } else {
        assert Dedupe(fields)[..|Dedupe(fields)| - 1] == Dedupe(front);
      }
    }
  }

  method Unique(items: seq<string>) returns (out: seq<string>)
    ensures out == Dedupe(items)
  {
    out := [];
    for n := 0 to |items|
      invariant out == Dedupe(items[..n])
    {
      assert items[..n + 1][..n] == items[..n];
      if items[n] !in out {
        out := out + [items[n]];
      }
    }
    assert items[..|items|] == items;
  }

  // ---- Where a client's fallback differs ------------------------------------------------------------

  datatype Client = Go | Node | Php | Python

  /**
   * The fallbacks look at a non-object root's first character or type only: every number is "number",
   * and Python has one name for true and false.
   */
  function FallbackName(client: Client, root: string): string {
    if root == "integer" || root == "real" then "number"
    else if client.Python? && (root == "true" || root == "false") then "boolean"
    else root
  }

  function AsFallback(client: Client, r: Result<Outcome, Error>): Result<Outcome, Error> {
    match r
    case Err(WrongType(vt, Some(root))) => Err(WrongType(vt, Some(FallbackName(client, root))))
    case _ => r
  }

  predicate SameClass(a: Result<Outcome, Error>, b: Result<Outcome, Error>) {
    a == b || (a.Err? && b.Err? && a.error.WrongType? && b.error.WrongType? && a.error.valueType == b.error.valueType)
  }

  /**
   * What the fallback answers when the integer to add to is beyond int64: Go cannot parse it, PHP takes
   * it for an overflow, Node and Python have unbounded integers and add.
   */
  function Refusal(client: Client): Option<Error> {
    match client
    case Go => Some(NotInteger)
    case Php => Some(Overflow)
    case _ => None
  }

  /** The operation on a parsed document, as a client's fallback does it. */
  function FallbackOnDoc(client: Client, op: Op, doc: Doc): Result<Effect, Error> {
    if op.HIncrBy? && Refusal(client).Some?
       && (match Get<string, Value>(doc, op.field) case Some(Int(n)) => !InInt64(n) case _ => false)
    then Err(Refusal(client).value)
    else OnDoc(op, doc)
  }

  /** The stored integer beyond int64 that a call would add to, if there is one. */
  function OutOfRange(call: Call, row: Option<Row>): Option<int> {
    if call.op.HIncrBy? && InInt64(call.op.amount) && LiveAt(row, call.now) then
      match Get<string, Value>(DocOf(row), call.op.field)
      case Some(Int(n)) => if InInt64(n) then None else Some(n)
      case _ => None
    else None
  }

  /** The whole call, as a client's fallback does it. */
  function FallbackPerform(client: Client, call: Call, row: Option<Row>): (Option<Row>, Result<Outcome, Error>) {
    if OutOfRange(call, row).Some? && Refusal(client).Some? then (row, Err(Refusal(client).value))
    else (Perform(call, row).0, AsFallback(client, Perform(call, row).1))
  }

  /** The same, case by case in terms of what happens to the parsed document. */
  lemma FallbackShape(client: Client, call: Call, row: Option<Row>)
    requires EarlyAnswer(call.op).None?
    ensures FallbackPerform(client, call, row)
            == if LiveAt(row, call.now) then
                 if !IsObj(row.value) then (row, AsFallback(client, Err(TypeError(row.value.content))))
                 else FallbackWrite(row, call, true, FallbackOnDoc(client, call.op, row.value.content.doc))
               else if call.op.HDel? then (row, Ok(Count(0)))
               else if call.full then (row, Err(CacheFull))
               else FallbackWrite(row, call, false, FallbackOnDoc(client, call.op, []))
  {
  }

  /** Writing a mutated document back: over the row it was loaded from, or as a new row. */
  function FallbackWrite(row: Option<Row>, call: Call, found: bool, mutated: Result<Effect, Error>
    ): (Option<Row>, Result<Outcome, Error>)
    requires found ==> row.Some?
  {
    match mutated
    case Err(e) => (row, Err(e))
    case Ok(eff) =>
      (if found then if eff.changed then Some(Touch(row.value, eff.doc, call.now)) else row
       else Some(Create(eff.doc, call.now, call.exp)), Ok(eff.outcome))
  }

  // ---- The store ------------------------------------------------------------------------------------

  class Store {
    var rows: map<string, Row>

    constructor ()
      ensures rows == map[]
    {
      rows := map[];
    }

    function At(key: string): Option<Row>
      reads this
    {
      if key in rows then Some(rows[key]) else None
    }

    method Save(key: string, row: Option<Row>)
      modifies this
      ensures At(key) == row
      ensures forall k :: k != key ==> At(k) == old(At(k))
    {
      rows := if row.Some? then rows[key := row.value] else rows - {key};
    }

    /** The error for a live row that is not a hash, if it is one. */
    function CheckHashType(key: string, now: int): Option<Error>
      reads this
    {
      if LiveAt(At(key), now) && !IsObj(rows[key]) then Some(TypeError(rows[key].content)) else None
    }

    /** Rejects a write that would add a row to a full namespace. */
    function CapacityRefuses(key: string, call: Call): bool
      reads this
    {
      call.full && !LiveAt(At(key), call.now)
    }

    // -- JSON1 path -----------------------------------------------------------------------------------

    /** Set the field where it is absent, else set it where the key is a live object. */
    method HSetNative(key: string, call: Call) returns (r: Result<Outcome, Error>)
      requires call.op.HSet?
      modifies this
      ensures (At(key), r) == Perform(call, old(At(key)))
      ensures forall k :: k != key ==> At(k) == old(At(k))
    {
      var HSet(f, v) := call.op;
      var now := call.now;
      if CapacityRefuses(key, call) {
        return Err(CacheFull);
      }
      var row := At(key);
      var setDoc := Set(DocOf(row), f, v);
      assert Set([], f, v) == [Field(f, v)];
      var (first, changes) := Upsert(row, now, call.exp, [Field(f, v)], setDoc,
                                     row.Some? && FieldType(row.value, f).None? && IsObj(row.value));
      Save(key, first);
      if changes == 1 {
        return Ok(Flag(true));
      }
      if LiveAt(row, now) && IsObj(row.value) {
        Save(key, Some(Touch(row.value, setDoc, now)));
      } else {
        var clash := CheckHashType(key, now);
        if clash.Some? {
          return Err(clash.value);
        }
      }
      return Ok(Flag(false));
    }

    method HSetNXNative(key: string, call: Call) returns (r: Result<Outcome, Error>)
      requires call.op.HSetNX?
      modifies this
      ensures (At(key), r) == Perform(call, old(At(key)))
      ensures forall k :: k != key ==> At(k) == old(At(k))
    {
      var HSetNX(f, v) := call.op;
      if CapacityRefuses(key, call) {
        return Err(CacheFull);
      }
      var row := At(key);
      assert Set([], f, v) == [Field(f, v)];
      var (after, changes) := Upsert(row, call.now, call.exp, [Field(f, v)], Set(DocOf(row), f, v),
                                     row.Some? && FieldType(row.value, f).None? && IsObj(row.value));
      Save(key, after);
      if changes == 1 {
        return Ok(Flag(true));
      }
      var clash := CheckHashType(key, call.now);
      if clash.Some? {
        return Err(clash.value);
      }
      return Ok(Flag(false));
    }

    /** One statement of the deletion; `n` fields were removed by the ones before it. */
    method RemoveOne(key: string, ghost start: Option<Row>, now: int, fields: seq<string>, i: nat, n: nat)
      returns (total: nat)
      requires i < |fields| && (At(key), n) == Deleted(start, now, fields[..i])
      modifies this
      ensures (At(key), total) == Deleted(start, now, fields[..i + 1])
      ensures forall k :: k != key ==> At(k) == old(At(k))
    {
      DeletedStep(start, now, fields, i);
      var (after, changes) := RemoveField(At(key), now, fields[i], if n == 0 then 1 else 0);
      Save(key, after);
      total := n + changes;
    }

    /** One guarded statement a field; only the first that removes something counts as an access. */
    method HDelNative(key: string, call: Call) returns (r: Result<Outcome, Error>)
      requires call.op.HDel? && Sane(At(key))
      modifies this
      ensures (At(key), r) == Perform(call, old(At(key)))
      ensures forall k :: k != key ==> At(k) == old(At(k))
    {
      var fields := Unique(call.op.fields);
      var start := At(key);
      DeletedIsPerform(start, call);
      if fields == [] {
        return Ok(Count(0));
      }
      var n: nat := 0;
      for i := 0 to |fields|
        invariant (At(key), n) == Deleted(start, call.now, fields[..i])
        invariant forall k :: k != key ==> At(k) == old(At(k))
      {
        n := RemoveOne(key, start, call.now, fields, i, n);
      }
      assert fields[..|fields|] == fields;
      if n == 0 {
        var clash := CheckHashType(key, call.now);
        if clash.Some? {
          return Err(clash.value);
        }
      }
      return Ok(Count(n));
    }

    /**
     * One UPSERT computing the sum in SQL. A stored integer beyond int64 reads back as a REAL, which
     * the guard refuses as an overflow whatever the sum would be.
     */
    method HIncrNative(key: string, call: Call) returns (r: Result<Outcome, Error>)
      requires call.op.HIncrBy?
      modifies this
      ensures (At(key), r) == NativeIncr(call, old(At(key)))
      ensures forall k :: k != key ==> At(k) == old(At(k))
    {
      var HIncrBy(f, amount) := call.op;
      if !InInt64(amount) {
        return Err(Overflow);
      }
      if CapacityRefuses(key, call) {
        return Err(CacheFull);
      }
      var row := At(key);
      var sum := SqlAdd(StoredNumber(row, f), Integer64(amount));
      var guard := IncrGuard(row, f, amount);
      IncrUpsertIsRight(row, call);
      var (after, changes) := Upsert(row, call.now, call.exp, [Field(f, Int(amount))],
                                     if guard then Set(DocOf(row), f, Int(sum.n)) else [], guard);
      Save(key, after);
      if changes == 1 {
        return Ok(Number(Get(DocOf(At(key)), f).value.n));
      }
      var clash := CheckHashType(key, call.now);
      if clash.Some? {
        return Err(clash.value);
      }
      return Err(if FieldType(rows[key], f) == Some(Integer) then Overflow else NotInteger);
    }

    // -- Read-modify-write path --------------------------------------------------------------------------

    /** The live document at a key, nothing when the key is missing or expired, or a type error. */
    method LoadHash(client: Client, key: string, now: int) returns (r: Result<Option<Doc>, Error>)
      ensures r == (if !LiveAt(At(key), now) then Ok(None)
                    else if IsObj(rows[key]) then Ok(Some(rows[key].content.doc))
                    else Err(WrongType(ValueType(rows[key].content),
                                       if rows[key].content.Scalar? then
                                         Some(FallbackName(client, KindName(rows[key].content.kind)))
                                       else None)))
    {
      if !LiveAt(At(key), now) {
        return Ok(None);
      }
      match rows[key].content
      case Foreign(vt) => return Err(WrongType(vt, None));
      case Malformed => return Err(WrongType(JSON_TYPE, None));
      case Scalar(kind) => return Err(WrongType(JSON_TYPE, Some(FallbackName(client, KindName(kind)))));
      case Hash(doc) => return Ok(Some(doc));
    }

    /** Read, mutate the parsed document, write back, with the write lock held throughout. */
    method RmwHash(client: Client, key: string, call: Call) returns (r: Result<Outcome, Error>)
      requires Sane(At(key))
      modifies this
      ensures (At(key), r) == FallbackPerform(client, call, old(At(key)))
      ensures forall k :: k != key ==> At(k) == old(At(k))
    {
      var row := At(key);
      if EarlyAnswer(call.op).Some? {
        return EarlyAnswer(call.op).value;
      }
      FallbackShape(client, call, row);
      var loaded := LoadHash(client, key, call.now);
      if loaded.Err? {
        return Err(loaded.error);
      }
      var found := loaded.value.Some?;
      if found {
        r := RmwFound(client, key, call, loaded.value.value);
      } else {
        r := RmwMissing(client, key, call);
      }
    }

    method RmwFound(client: Client, key: string, call: Call, doc: Doc) returns (r: Result<Outcome, Error>)
      requires EarlyAnswer(call.op).None? && LiveAt(At(key), call.now) && IsObj(rows[key])
      requires doc == rows[key].content.doc && UniqueKeys(doc)
      modifies this
      ensures (At(key), r) == FallbackWrite(old(At(key)), call, true, FallbackOnDoc(client, call.op, doc))
      ensures forall k :: k != key ==> At(k) == old(At(k))
    {
      var row := rows[key];
      var parsed := new JsonObject<string, Value>(doc);
      var changed, answer := Mutate(client, call.op, parsed);
      if answer.Err? || !changed {
        return answer;
      }
      Save(key, Some(row.(content := Hash(parsed.fields), size := SizeOf(parsed.fields), lastAccessed := call.now,
                          accessCount := row.accessCount + 1)));
      return answer;
    }

    method RmwMissing(client: Client, key: string, call: Call) returns (r: Result<Outcome, Error>)
      requires EarlyAnswer(call.op).None?
      modifies this
      ensures (At(key), r)
              == if call.op.HDel? then (old(At(key)), Ok(Count(0)))
                 else if call.full then (old(At(key)), Err(CacheFull))
                 else FallbackWrite(old(At(key)), call, false, FallbackOnDoc(client, call.op, []))
      ensures forall k :: k != key ==> At(k) == old(At(k))
    {
      if !call.op.HDel? && call.full {
        return Err(CacheFull);
      }
      var parsed := new JsonObject<string, Value>([]);
      if call.op.HDel? {
        NothingInEmpty(call.op.fields);
      }
      var changed, answer := Mutate(client, call.op, parsed);
      if answer.Err? || !changed || call.op.HDel? {
        return answer;
      }
      Save(key, Some(Create(parsed.fields, call.now, call.exp)));
      return answer;
    }
  }

  /** What a run of guarded deletes leaves: the row, touched once if anything went, and the count. */
  function Deleted(row: Option<Row>, now: int, fields: seq<string>): (Option<Row>, nat) {
    if LiveAt(row, now) && IsObj(row.value) && Removed(row.value.content.doc, fields) > 0 then
      (Some(Touch(row.value, DelAll(row.value.content.doc, fields), now)), Removed(row.value.content.doc, fields))
    else (row, 0)
  }

  lemma DeletedIsPerform(row: Option<Row>, call: Call)
    requires call.op.HDel? && Sane(row)
    ensures var fields := Dedupe(call.op.fields);
            var (after, n) := Deleted(row, call.now, fields);
            && (fields == [] ==> Perform(call, row) == (row, Ok(Count(0))))
            && (fields != [] ==>
                  Perform(call, row)
                  == (after, if n == 0 && LiveAt(after, call.now) && !IsObj(after.value) then
                          Err(TypeError(after.value.content))
                             else Ok(Count(n))))
  {
    DedupeIsHarmless(DocOf(row), call.op.fields);
  }

  /** One more guarded delete extends the run by one field. */
  lemma DeletedStep(row: Option<Row>, now: int, fields: seq<string>, i: nat)
    requires i < |fields|
    ensures var (before, n) := Deleted(row, now, fields[..i]);
            var (after, changes) := RemoveField(before, now, fields[i], if n == 0 then 1 else 0);
            (after, n + changes) == Deleted(row, now, fields[..i + 1])
  {
    assert fields[..i + 1][..i] == fields[..i];
    if LiveAt(row, now) && IsObj(row.value) {
      var doc := row.value.content.doc;
      NothingRemoved(doc, fields[..i]);
      var here := DelAll(doc, fields[..i]);
      assert DelAll(doc, fields[..i + 1]) == Del(here, fields[i]);
      var before := Deleted(row, now, fields[..i]).0;
      assert LiveAt(before, now) && DocOf(before) == here;
      assert FieldType(before.value, fields[i]).Some? <==> Has(here, fields[i]);
    }
  }

  lemma {:induction false} NothingInEmpty(fields: seq<string>)
    ensures Removed([], fields) == 0 && DelAll([], fields) == []
    decreases |fields|
  {
    if fields != [] {
      NothingInEmpty(fields[..|fields| - 1]);
    }
  }

  /** The mutation callbacks of the read-modify-write path. */
  method Mutate(client: Client, op: Op, parsed: JsonObject<string, Value>)
    returns (changed: bool, r: Result<Outcome, Error>)
    requires UniqueKeys(parsed.fields) && EarlyAnswer(op).None?
    modifies parsed
    ensures Does(FallbackOnDoc(client, op, old(parsed.fields)), changed, r, parsed.fields)
  {
    match op
    case HSet(f, v) =>
      var had := parsed.HasField(f);
      parsed.SetField(f, v);
      return true, Ok(Flag(!had));
    case HSetNX(f, v) =>
      var had := parsed.HasField(f);
      if had {
        return false, Ok(Flag(false));
      }
      parsed.SetField(f, v);
      return true, Ok(Flag(true));
    case HDel(fs) =>
      changed, r := MutateDel(fs, parsed);
    case HIncrBy(f, amount) =>
      changed, r := MutateIncr(client, f, amount, parsed);
    case HSetMany(pairs) =>
      var doc := parsed.fields;
      for i := 0 to |pairs|
        invariant parsed.fields == SetAll(doc, pairs[..i])
      {
        assert pairs[..i + 1][..i] == pairs[..i];
        parsed.SetField(pairs[i].key, pairs[i].value);
      }
      assert pairs[..|pairs|] == pairs;
      return true, Ok(Done);
  }

  /** A mutation ends as its meaning says; a refused one may leave the parsed copy as it likes. */
  ghost predicate Does(meant: Result<Effect, Error>, changed: bool, r: Result<Outcome, Error>, fields: Doc) {
    match meant
    case Err(e) => r == Err(e)
    case Ok(eff) => changed == eff.changed && r == Ok(eff.outcome) && fields == eff.doc
  }

  method MutateDel(names: seq<string>, parsed: JsonObject<string, Value>)
    returns (changed: bool, r: Result<Outcome, Error>)
    requires UniqueKeys(parsed.fields)
    modifies parsed
    ensures Does(OnDoc(HDel(names), old(parsed.fields)), changed, r, parsed.fields)
  {
    var doc := parsed.fields;
    var fields := Unique(names);
    DedupeIsHarmless(doc, names);
    var n := 0;
    for i := 0 to |fields|
      invariant parsed.fields == DelAll(doc, fields[..i]) && n == Removed(doc, fields[..i])
    {
      assert fields[..i + 1][..i] == fields[..i];
      var gone := parsed.DeleteField(fields[i]);
      n := n + if gone then 1 else 0;
    }
    assert fields[..|fields|] == fields;
    NothingRemoved(doc, fields);
    return n > 0, Ok(Count(n));
  }

  method MutateIncr(client: Client, f: string, amount: int, parsed: JsonObject<string, Value>)
    returns (changed: bool, r: Result<Outcome, Error>)
    requires InInt64(amount)
    modifies parsed
    ensures Does(FallbackOnDoc(client, HIncrBy(f, amount), old(parsed.fields)), changed, r, parsed.fields)
  {
    var stored := parsed.GetField(f);
    var current := if stored.Some? then stored.value else Int(0);
    if !current.Int? {
      return false, Err(NotInteger);
    }
    if !InInt64(current.n) && Refusal(client).Some? {
      return false, Err(Refusal(client).value);
    }
    if !InInt64(current.n + amount) {
      return false, Err(Overflow);
    }
    parsed.SetField(f, Int(current.n + amount));
    return true, Ok(Number(current.n + amount));
  }

  lemma {:induction false} NothingRemoved(doc: Doc, fields: seq<string>)
    ensures Removed(doc, fields) == 0 ==> DelAll(doc, fields) == doc
    decreases |fields|
  {
    if fields != [] {
      NothingRemoved(doc, fields[..|fields| - 1]);
    }
  }
}
