/**
 * Setting many fields at once with SQL statements of at most 500 fields, each nesting json_set
 * calls of at most 30 pairs; and where the two hash implementations can be told apart.
 */
module HashMany {
  import opened Prelude
  import opened OrderedFields
  import opened HashDoc
  import opened HashSpec
  import opened HashStore
  import Decimal

  const PER_STATEMENT: nat := 500
  const PAIRS_PER_CALL: nat := 30

  function Statements(n: nat): nat {
    (n + PER_STATEMENT - 1) / PER_STATEMENT
  }

  /** Where the last statement's fields start. */
  function LastStart(n: nat): nat
    requires n > 0
    ensures LastStart(n) < n <= LastStart(n) + PER_STATEMENT
  {
    (n - 1) / PER_STATEMENT * PER_STATEMENT
  }

  /** json_set(... json_set(json_set(base, 30 pairs), 30 pairs) ...): a plain left-to-right fold. */
  method NestedSet(base: Doc, chunk: seq<Pair>) returns (doc: Doc)
    ensures doc == SetAll(base, chunk)
  {
    doc := base;
    var g := 0;
    while g < |chunk|
      invariant g <= |chunk| && doc == SetAll(base, chunk[..g])
      decreases |chunk| - g
    {
      var end := if g + PAIRS_PER_CALL < |chunk| then g + PAIRS_PER_CALL else |chunk|;
      SetAllAppend(base, chunk[..g], chunk[g..end]);
      assert chunk[..g] + chunk[g..end] == chunk[..end];
      doc := SetAll(doc, chunk[g..end]);
      g := end;
    }
    assert chunk[..g] == chunk;
  }

  /** A fresh row created with this expiry is live when the next statement looks. */
  predicate ExpiryKeeps(call: Call) {
    call.exp.None? || call.exp.value > call.now
  }

  /**
   * The row after the statements covering `done`. Every statement after the first on a live row is
   * one more access; with an expiry already past each statement starts the document over.
   */
  function After(row: Option<Row>, call: Call, done: seq<Pair>): Option<Row> {
    if done == [] || (LiveAt(row, call.now) && !IsObj(row.value)) then row
    else if LiveAt(row, call.now) then
      var touched := Touch(row.value, SetAll(row.value.content.doc, done), call.now);
      Some(touched.(accessCount := row.value.accessCount + Statements(|done|)))
    else if ExpiryKeeps(call) then
      Some(Create(SetAll([], done), call.now, call.exp).(accessCount := Statements(|done|) - 1))
    else
      Some(Create(SetAll([], done[LastStart(|done|)..]), call.now, call.exp))
  }

  /** One statement: the hash UPSERT over a chunk of fields. */
  function Statement(before: Option<Row>, call: Call, chunk: seq<Pair>): (Option<Row>, nat) {
    Upsert(before, call.now, call.exp, SetAll([], chunk), SetAll(DocOf(before), chunk),
           before.Some? && IsObj(before.value))
  }

  lemma StepOnLive(row: Option<Row>, call: Call, pairs: seq<Pair>, start: nat, end: nat)
    requires start < end <= |pairs| && end <= start + PER_STATEMENT && start % PER_STATEMENT == 0
    requires LiveAt(row, call.now) && IsObj(row.value)
    ensures Statement(After(row, call, pairs[..start]), call, pairs[start..end]) == (After(row, call, pairs[..end]), 1)
  {
    var chunk, doc := pairs[start..end], row.value.content.doc;
    assert pairs[..start] + chunk == pairs[..end];
    StatementsStep(start, end);
    SetAllAppend(doc, pairs[..start], chunk);
    var before := After(row, call, pairs[..start]);
    assert LiveAt(before, call.now) && DocOf(before) == SetAll(doc, pairs[..start]);
    assert before.value.accessCount == row.value.accessCount + Statements(start);
  }

  /** A later statement, on the row the first one created. */
  lemma StepOnCreated(row: Option<Row>, call: Call, pairs: seq<Pair>, start: nat, end: nat)
    requires 0 < start < end <= |pairs| && end <= start + PER_STATEMENT && start % PER_STATEMENT == 0
    requires !LiveAt(row, call.now) && ExpiryKeeps(call)
    ensures Statement(After(row, call, pairs[..start]), call, pairs[start..end]) == (After(row, call, pairs[..end]), 1)
  {
    var chunk := pairs[start..end];
    assert pairs[..start] + chunk == pairs[..end];
    StatementsStep(start, end);
    SetAllAppend([], pairs[..start], chunk);
    var before := After(row, call, pairs[..start]);
    assert LiveAt(before, call.now) && DocOf(before) == SetAll([], pairs[..start]);
  }

  /** The first statement, or one that finds the row it follows expired already. */
  lemma StepAnew(row: Option<Row>, call: Call, pairs: seq<Pair>, start: nat, end: nat)
    requires start < end <= |pairs| && end <= start + PER_STATEMENT && start % PER_STATEMENT == 0
    requires !LiveAt(row, call.now) && (start == 0 || !ExpiryKeeps(call))
    ensures Statement(After(row, call, pairs[..start]), call, pairs[start..end]) == (After(row, call, pairs[..end]), 1)
  {
    StatementsStep(start, end);
    StatementsOfNone();
    assert pairs[..end][start..] == pairs[start..end];
    assert !LiveAt(After(row, call, pairs[..start]), call.now);
  }

  lemma StatementsOfNone()
    ensures Statements(0) == 0
  {
  }

  /** One more statement, on the row the ones before it left. */
  lemma AfterStep(row: Option<Row>, call: Call, pairs: seq<Pair>, start: nat, end: nat)
    requires start < end <= |pairs| && end <= start + PER_STATEMENT && start % PER_STATEMENT == 0
    ensures var (after, changes) := Statement(After(row, call, pairs[..start]), call, pairs[start..end]);
            && after == After(row, call, pairs[..end])
            && (changes == 0 <==> LiveAt(row, call.now) && !IsObj(row.value))
  {
    if !LiveAt(row, call.now) && (start == 0 || !ExpiryKeeps(call)) {
      StepAnew(row, call, pairs, start, end);
    } else if !LiveAt(row, call.now) {
      StepOnCreated(row, call, pairs, start, end);
    } else if IsObj(row.value) {
      StepOnLive(row, call, pairs, start, end);
    }
  }

  lemma StatementsStep(start: nat, end: nat)
    requires start < end <= start + PER_STATEMENT && start % PER_STATEMENT == 0
    ensures Statements(end) == Statements(start) + 1
    ensures LastStart(end) == start
  {
    var k := start / PER_STATEMENT;
    assert start == k * PER_STATEMENT;
    assert (end - 1) / PER_STATEMENT == k;
    assert (end + PER_STATEMENT - 1) / PER_STATEMENT == k + 1;
    assert (start + PER_STATEMENT - 1) / PER_STATEMENT == k;
  }

  /** Where the statement that starts here ends. */
  function EndOf(start: nat, n: nat): (end: nat)
    requires start < n && start % PER_STATEMENT == 0
    ensures start < end <= n && end <= start + PER_STATEMENT && (end < n ==> end % PER_STATEMENT == 0)
  {
    if start + PER_STATEMENT < n then start + PER_STATEMENT else n
  }

  /** Runs the statement for pairs[start..end]; returns the number of changes. */
  method RunStatement(store: Store, key: string, call: Call, ghost row: Option<Row>,
                        pairs: seq<Pair>, start: nat, end: nat)
    returns (changes: nat)
    requires start < end <= |pairs| && end <= start + PER_STATEMENT && start % PER_STATEMENT == 0
    requires store.At(key) == After(row, call, pairs[..start])
    modifies store
    ensures store.At(key) == After(row, call, pairs[..end])
    ensures changes == 0 <==> LiveAt(row, call.now) && !IsObj(row.value)
    ensures forall k :: k != key ==> store.At(k) == old(store.At(k))
  {
    AfterStep(row, call, pairs, start, end);
    var before := store.At(key);
    var created := NestedSet([], pairs[start..end]);
    var updated := NestedSet(DocOf(before), pairs[start..end]);
    var (after, n) := Upsert(before, call.now, call.exp, created, updated, before.Some? && IsObj(before.value));
    store.Save(key, after);
    changes := n;
  }

  /** The whole call, as the path of guarded statements does it. */
  function NativePerform(call: Call, row: Option<Row>): (Option<Row>, Result<Outcome, Error>) {
    var (after, r) := Perform(call, row);
    if call.op.HIncrBy? then NativeIncr(call, row)
    else if call.op.HSetMany? && r.Ok? then (After(row, call, call.op.pairs), r)
    else (after, r)
  }

  /** The transaction of statements. A refused statement rolls everything back. */
  method HSetManyNative(store: Store, key: string, call: Call) returns (r: Result<Outcome, Error>)
    requires call.op.HSetMany?
    modifies store
    ensures (store.At(key), r) == NativePerform(call, old(store.At(key)))
    ensures forall k :: k != key ==> store.At(k) == old(store.At(k))
  {
    var pairs := call.op.pairs;
    if pairs == [] {
      return Ok(Done);
    }
    if store.CapacityRefuses(key, call) {
      return Err(CacheFull);
    }
    r := RunStatements(store, key, call);
  }

  /** All the statements, in one transaction. */
  method RunStatements(store: Store, key: string, call: Call) returns (r: Result<Outcome, Error>)
    requires call.op.HSetMany? && call.op.pairs != []
    modifies store
    ensures var row := old(store.At(key));
            if LiveAt(row, call.now) && !IsObj(row.value) then
              r == Err(TypeError(row.value.content)) && store.At(key) == row
            else r == Ok(Done) && store.At(key) == After(row, call, call.op.pairs)
    ensures forall k :: k != key ==> store.At(k) == old(store.At(k))
  {
    var pairs := call.op.pairs;
    var saved := store.rows;
    ghost var row := store.At(key);
    var start := 0;
    while start < |pairs|
      invariant start <= |pairs| && (start < |pairs| ==> start % PER_STATEMENT == 0)
      invariant store.At(key) == After(row, call, pairs[..start])
      invariant start == 0 || !LiveAt(row, call.now) || IsObj(row.value)
      invariant forall k :: k != key ==> store.At(k) == old(store.At(k))
      decreases |pairs| - start
    {
      var end := EndOf(start, |pairs|);
      var changes := RunStatement(store, key, call, row, pairs, start, end);
      if changes == 0 {
        var clash := store.CheckHashType(key, call.now);
        store.rows := saved;
        return Err(clash.value);
      }
      start := end;
    }
    assert pairs[..start] == pairs;
    return Ok(Done);
  }

  // ---- Telling the implementations apart ------------------------------------------------------------

  /** Distinct new fields are simply appended, in order. */
  lemma {:induction false} SetAllOfDistinct(pairs: seq<Pair>)
    requires UniqueKeys(pairs)
    ensures SetAll([], pairs) == pairs
    decreases |pairs|
  {
    if pairs != [] {
      var n := |pairs| - 1;
      SetAllOfDistinct(pairs[..n]);
      IndexOfShape(pairs[..n], pairs[n].key);
    }
  }

  lemma StatementCounts(n: nat)
    requires n > 0
    ensures n <= PER_STATEMENT <==> Statements(n) == 1
    ensures n <= PER_STATEMENT <==> LastStart(n) == 0
    ensures Statements(n) >= 1
  {
    if n <= PER_STATEMENT {
      StatementsStep(0, n);
    }
  }

  /** The last statement's fields are all of them exactly when there is one statement. */
  lemma LastFieldsOnly(pairs: seq<Pair>)
    requires pairs != [] && UniqueKeys(pairs)
    ensures SetAll([], pairs[LastStart(|pairs|)..]) == SetAll([], pairs) <==> |pairs| <= PER_STATEMENT
  {
    StatementCounts(|pairs|);
    var tail := pairs[LastStart(|pairs|)..];
    SetAllOfDistinct(pairs);
    SetAllOfDistinct(tail);
    assert |tail| == |pairs| - LastStart(|pairs|);
    assert LastStart(|pairs|) == 0 ==> tail == pairs;
  }

  /**
   * Against the one abstract call (one access, one document): the statements leave exactly the same
   * row iff at most 500 fields are set. Beyond that the access count is bumped once a statement, or
   * a row whose expiry is already past starts over.
   */
  lemma ManyMatchesUpTo500(row: Option<Row>, call: Call)
    requires call.op.HSetMany? && call.op.pairs != [] && UniqueKeys(call.op.pairs)
    requires Perform(call, row).1.Ok?
    ensures After(row, call, call.op.pairs) == Perform(call, row).0 <==> |call.op.pairs| <= PER_STATEMENT
  {
    StatementCounts(|call.op.pairs|);
    LastFieldsOnly(call.op.pairs);
  }

  /**
   * The document itself is the full left-to-right fold iff one statement is enough, the row was live
   * already, or the new row's expiry is not already past.
   */
  lemma ManyDocumentIsFold(row: Option<Row>, call: Call)
    requires call.op.HSetMany? && call.op.pairs != [] && UniqueKeys(call.op.pairs)
    requires Perform(call, row).1.Ok?
    ensures var after := After(row, call, call.op.pairs);
            after.Some? && IsObj(after.value)
            && (DocOf(after) == DocOf(Perform(call, row).0) <==>
                |call.op.pairs| <= PER_STATEMENT || LiveAt(row, call.now) || ExpiryKeeps(call))
  {
    StatementCounts(|call.op.pairs|);
    LastFieldsOnly(call.op.pairs);
  }

  /**
   * Where no stored integer is beyond int64 the fallback leaves the row the operation means and reports
   * the class of answer it means. The texts differ only in the name of a root: for a JSON number in
   * every client, for a boolean in Python too.
   */
  lemma FallbackMeansTheOperation(client: Client, call: Call, row: Option<Row>)
    requires OutOfRange(call, row).None?
    ensures var (after, r) := Perform(call, row);
            var (after', r') := FallbackPerform(client, call, row);
            && after == after' && SameClass(r, r')
            && (r == r' <==>
                !(EarlyAnswer(call.op).None? && LiveAt(row, call.now) && row.value.content.Scalar?
                  && Renamed(client, row.value.content.kind)))
  {
    if LiveAt(row, call.now) && row.value.content.Scalar? {
      NamesDiffer(client, row.value.content.kind);
    }
  }

  /** Kinds that the fallback calls by another name than SQLite does. */
  predicate Renamed(client: Client, k: Kind) {
    k == Integer || k == Real || (client.Python? && (k == True || k == False))
  }

  /**
   * The statements name a root as json_type does. A fallback calls every number "number", and Python's
   * calls both truth values "boolean".
   */
  lemma NamesDiffer(client: Client, k: Kind)
    ensures FallbackName(client, KindName(k)) != KindName(k) <==> Renamed(client, k)
    ensures Renamed(client, k) ==>
              FallbackName(client, KindName(k)) == if k == Integer || k == Real then "number" else "boolean"
    ensures [KindName(Text), KindName(True), KindName(False), KindName(Null)] == ["text", "true", "false", "null"]
    ensures [KindName(Integer), KindName(Real), KindName(Array), KindName(Object)]
            == ["integer", "real", "array", "object"]
  {
    assert "integer"[0] == 'i' && "real"[0] == 'r' && "true"[0] == 't' && "true"[1] == 'r' && "false"[0] == 'f';
    assert "text"[1] == 'e' && "null"[0] == 'n' && "array"[0] == 'a' && "object"[0] == 'o';
    assert "number"[0] == 'n' && "boolean"[0] == 'b';
  }

  /**
   * The two paths of an increment leave the same row and the same class of answer, in Go exactly when
   * the stored integer fits int64, in PHP always, in Node and Python exactly when it fits or the sum
   * does not.
   */
  lemma IncrPathsAgree(client: Client, call: Call, row: Option<Row>)
    requires call.op.HIncrBy?
    ensures var (native, r) := NativeIncr(call, row);
            var (fallback, r') := FallbackPerform(client, call, row);
            var n := OutOfRange(call, row);
            native == fallback && SameClass(r, r') <==>
            match client
            case Go => n.None?
            case Php => true
            case _ => n.None? || !InInt64(n.value + call.op.amount)
  {
    if InInt64(call.op.amount) && LiveAt(row, call.now) {
      IncrOnLive(row, call);
    }
    if OutOfRange(call, row).None? {
      FallbackMeansTheOperation(client, call, row);
    }
  }

  /**
   * One beyond int64, to be brought back into it: the statement overflows, Go's fallback finds no
   * integer, Node's adds.
   */
  lemma IncrPathsPart()
    ensures var row := Some(Create([Field("f", Int(INT64_MAX + 1))], 0, None));
            var call := Call(HIncrBy("f", -1), 1, None, false);
            && NativeIncr(call, row) == (row, Err(Overflow))
            && FallbackPerform(Go, call, row) == (row, Err(NotInteger))
            && FallbackPerform(Php, call, row) == (row, Err(Overflow))
            && FallbackPerform(Node, call, row).1 == FallbackPerform(Python, call, row).1 == Ok(Number(INT64_MAX))
  {
    var doc := [Field("f", Int(INT64_MAX + 1))];
    assert IndexOf(doc, "f") == 0;
  }

  /** More fields than one statement takes, in a call that is not refused. */
  predicate TakesSeveralStatements(call: Call, row: Option<Row>) {
    call.op.HSetMany? && |call.op.pairs| > PER_STATEMENT && Perform(call, row).1.Ok?
  }

  /** The two paths leave the same row and the same class of answer. */
  predicate PathsAgree(client: Client, call: Call, row: Option<Row>) {
    var (native, r) := NativePerform(call, row);
    var (fallback, r') := FallbackPerform(client, call, row);
    native == fallback && SameClass(r, r')
  }

  /**
   * Where the two paths of every operation agree, client by client: not when more than 500 fields are
   * set, and on a stored integer beyond int64 as IncrPathsAgree says.
   */
  lemma PathsAgreeExactly(client: Client, call: Call, row: Option<Row>)
    requires call.op.HSetMany? ==> UniqueKeys(call.op.pairs)
    ensures PathsAgree(client, call, row) <==>
            && !TakesSeveralStatements(call, row)
            && var n := OutOfRange(call, row);
               match client
               case Go => n.None?
               case Php => true
               case _ => n.None? || !InInt64(n.value + call.op.amount)
  {
    if call.op.HIncrBy? {
      IncrPathsAgree(client, call, row);
    } else {
      FallbackMeansTheOperation(client, call, row);
      if call.op.HSetMany? && call.op.pairs != [] && Perform(call, row).1.Ok? {
        ManyMatchesUpTo500(row, call);
      }
    }
  }

  /** One more field than a statement takes: two accesses counted by the statements, one by the fallback. */
  lemma ManyPathsPart(client: Client)
    ensures var row := Some(Create([], 0, None));
            var call := Call(HSetMany(NumberedFields(PER_STATEMENT + 1)), 1, None, false);
            && UniqueKeys(call.op.pairs) && !PathsAgree(client, call, row)
            && NativePerform(call, row).0.value.accessCount == 2
            && FallbackPerform(client, call, row).0.value.accessCount == 1
  {
    var n := PER_STATEMENT + 1;
    var row := Some(Create([], 0, None));
    var call := Call(HSetMany(NumberedFields(n)), 1, None, false);
    StatementsStep(PER_STATEMENT, n);
    StatementsStep(0, PER_STATEMENT);
  }

  /** Fields named "0", "1" and so on. */
  function NumberedFields(n: nat): seq<Pair> {
    seq(n, i requires 0 <= i < n => Field(Decimal.Encode(i), Int(0)))
  }
}
