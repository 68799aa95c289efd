/**
 * What a caller sees of each hash operation, said of the pairs of the document alone: when a call is
 * refused, what it answers, which pairs are there afterwards and what becomes of the row around them.
 */
module HashLaws {
  import opened Prelude
  import opened OrderedFields
  import opened HashDoc
  import opened HashSpec

  ghost predicate NoPair(doc: Doc, f: string) {
    forall i :: 0 <= i < |doc| ==> doc[i].key != f
  }

  /** Pair `i` is the first with its key. */
  ghost predicate FirstPair(doc: Doc, f: string, i: int) {
    0 <= i < |doc| && doc[i].key == f && forall j :: 0 <= j < i ==> doc[j].key != f
  }

  /** The field's value is `v`: that is what its first pair holds. */
  ghost predicate Reads(doc: Doc, f: string, v: Value) {
    exists i :: FirstPair(doc, f, i) && doc[i].value == v
  }

  /** `after` is `doc` with the field set to `v`: in its place if it was there, at the end if not. */
  ghost predicate Written(doc: Doc, after: Doc, f: string, v: Value) {
    && (NoPair(doc, f) ==> after == doc + [Field(f, v)])
    && (forall i :: FirstPair(doc, f, i) ==> after == doc[i := Field(f, v)])
  }

  /** Gone: no row, or one whose time is up. */
  predicate Gone(row: Option<Row>, now: int) {
    row.None? || (row.value.expiresAt.Some? && row.value.expiresAt.value <= now)
  }

  predicate IsOtherValue(row: Option<Row>, now: int) {
    !Gone(row, now) && !row.value.content.Hash?
  }

  /** The pairs a call sees: the live hash's, or none. */
  function Seen(row: Option<Row>, now: int): Doc
    requires !IsOtherValue(row, now)
  {
    if Gone(row, now) then [] else row.value.content.doc
  }

  /** Nothing to do, whatever the row holds: no fields to delete, no pairs to set. */
  predicate Idle(op: Op) {
    op == HDel([]) || op == HSetMany([])
  }

  /**
   * `doc` was written: a live row keeps its creation time and expiry and counts one more access, a new
   * one starts at `now` with no access and the call's expiry.
   */
  ghost predicate Stored(call: Call, row: Option<Row>, after: Option<Row>, doc: Doc) {
    && after.Some? && after.value.content == Hash(doc) && after.value.size == SizeOf(doc)
    && after.value.lastAccessed == call.now
    && (if Gone(row, call.now) then
          after.value.createdAt == call.now && after.value.expiresAt == call.exp && after.value.accessCount == 0
        else
          && after.value.createdAt == row.value.createdAt && after.value.expiresAt == row.value.expiresAt
          && after.value.accessCount == row.value.accessCount + 1)
  }

  // ---- Refusals ----------------------------------------------------------------------------------

  /** The call comes to a full namespace and would have to add the key. */
  predicate NoRoom(call: Call, row: Option<Row>) {
    Gone(row, call.now) && call.full && !call.op.HDel?
  }

  /** Why a call is refused. */
  ghost predicate Refused(call: Call, row: Option<Row>, e: Error) {
    var other := IsOtherValue(row, call.now);
    var badAmount := call.op.HIncrBy? && !(INT64_MIN <= call.op.amount <= INT64_MAX);
    match e
    case WrongType(valueType, root) =>
      && other && !Idle(call.op) && !badAmount
      && valueType == (if row.value.content.Foreign? then row.value.content.valueType else 4)
      && root == if row.value.content.Scalar? then Some(KindName(row.value.content.kind)) else None
    case CacheFull => NoRoom(call, row) && !Idle(call.op) && !badAmount
    case NotInteger =>
      && !other && !badAmount && !NoRoom(call, row) && call.op.HIncrBy?
      && exists v :: Reads(Seen(row, call.now), call.op.field, v) && !v.Int?
    case Overflow =>
      badAmount ||
      (&& !other && !NoRoom(call, row) && call.op.HIncrBy?
       && exists n :: Reads(Seen(row, call.now), call.op.field, Int(n))
                      && !(INT64_MIN <= n + call.op.amount <= INT64_MAX))
  }

  /** What an operation finds of a field is what its first pair holds. */
  lemma GetReads(doc: Doc, f: string)
    ensures Has(doc, f) <==> !NoPair(doc, f)
    ensures Has(doc, f) ==> FirstPair(doc, f, IndexOf(doc, f))
    ensures forall i :: FirstPair(doc, f, i) ==> i == IndexOf(doc, f)
    ensures forall v :: Reads(doc, f, v) <==> Get(doc, f) == Some(v)
  {
    IndexOfShape(doc, f);
    forall i | FirstPair(doc, f, i) ensures i == IndexOf(doc, f) {
      IndexOfIs(doc, f, i);
    }
    forall v ensures Reads(doc, f, v) <==> Get(doc, f) == Some(v) {
      if Get(doc, f) == Some(v) {
        assert FirstPair(doc, f, IndexOf(doc, f)) && doc[IndexOf(doc, f)].value == v;
      }
    }
  }

  /** Refused for a reason exactly when that reason holds, and then nothing is written. */
  lemma RefusalRule(call: Call, row: Option<Row>, e: Error)
    ensures Perform(call, row).1 == Err(e) <==> Refused(call, row, e)
    ensures Refused(call, row, e) ==> Perform(call, row).0 == row
  {
    if call.op.HIncrBy? && !IsOtherValue(row, call.now) {
      var doc := Seen(row, call.now);
      GetReads(doc, call.op.field);
      var got := Get(doc, call.op.field);
      if got.Some? {
        assert Reads(doc, call.op.field, got.value);
      }
    }
  }

  // ---- Answers and effects -----------------------------------------------------------------------

  /** Calls that have nothing to do answer so on any row, a wrong type or a full namespace included. */
  lemma IdleRule(call: Call, row: Option<Row>)
    requires Idle(call.op)
    ensures Perform(call, row) == (row, Ok(if call.op.HDel? then Count(0) else Done))
  {
  }

  /** hset answers whether the field is new, and the field then has the value. */
  lemma HSetRule(call: Call, row: Option<Row>)
    requires call.op.HSet? && Perform(call, row).1.Ok?
    ensures var (after, r) := Perform(call, row); var doc := Seen(row, call.now);
            && r == Ok(Flag(NoPair(doc, call.op.field)))
            && after.Some? && after.value.content.Hash? && Stored(call, row, after, after.value.content.doc)
            && Written(doc, after.value.content.doc, call.op.field, call.op.value)
  {
    GetReads(Seen(row, call.now), call.op.field);
  }

  /** hsetnx writes only a new field, and answers whether it did. */
  lemma HSetNXRule(call: Call, row: Option<Row>)
    requires call.op.HSetNX? && Perform(call, row).1.Ok?
    ensures var (after, r) := Perform(call, row); var doc := Seen(row, call.now);
            && r == Ok(Flag(NoPair(doc, call.op.field)))
            && (NoPair(doc, call.op.field) ==> Stored(call, row, after, doc + [Field(call.op.field, call.op.value)]))
            && (!NoPair(doc, call.op.field) ==> after == row)
  {
    GetReads(Seen(row, call.now), call.op.field);
  }

  /** hincrby adds to the integer the field holds, to 0 if there is no such field, and answers the sum. */
  lemma HIncrRule(call: Call, row: Option<Row>)
    requires call.op.HIncrBy? && Perform(call, row).1.Ok?
    ensures var (after, r) := Perform(call, row); var doc := Seen(row, call.now);
            && r.value.Number? && INT64_MIN <= r.value.n <= INT64_MAX
            && (NoPair(doc, call.op.field) ==> r.value.n == call.op.amount)
            && (!NoPair(doc, call.op.field) ==> Reads(doc, call.op.field, Int(r.value.n - call.op.amount)))
            && after.Some? && after.value.content.Hash? && Stored(call, row, after, after.value.content.doc)
            && Written(doc, after.value.content.doc, call.op.field, Int(r.value.n))
  {
    GetReads(Seen(row, call.now), call.op.field);
  }

  /** The pairs with other keys than these, in their order. */
  function Dropping(doc: Doc, fields: seq<string>): Doc {
    if doc == [] then []
    else (if doc[0].key in fields then [] else [doc[0]]) + Dropping(doc[1..], fields)
  }

  /** hdel drops the named pairs and no other, and answers how many there were; with none it writes nothing. */
  lemma HDelRule(call: Call, row: Option<Row>)
    requires call.op.HDel? && Perform(call, row).1.Ok? && call.op.fields != []
    requires UniqueKeys(Seen(row, call.now))
    ensures var (after, r) := Perform(call, row); var doc := Seen(row, call.now);
            var left := Dropping(doc, call.op.fields);
            && r.value.Count? && r.value.removed + |left| == |doc|
            && (left != doc ==> Stored(call, row, after, left))
            && (left == doc ==> after == row)
  {
    var doc := Seen(row, call.now);
    DelAllDrops(doc, call.op.fields);
    DelAllLaw(doc, call.op.fields, "");
    DroppingLess(doc, call.op.fields);
  }

  lemma {:induction false} DroppingLess(doc: Doc, fields: seq<string>)
    ensures |Dropping(doc, fields)| <= |doc|
    ensures |Dropping(doc, fields)| == |doc| ==> Dropping(doc, fields) == doc
  {
    if doc != [] {
      DroppingLess(doc[1..], fields);
      assert doc == [doc[0]] + doc[1..];
    }
  }

  lemma {:induction false} DelAllDrops(doc: Doc, fields: seq<string>)
    requires UniqueKeys(doc)
    ensures DelAll(doc, fields) == Dropping(doc, fields)
    decreases |fields|
  {
    if fields == [] {
      DropNone(doc);
    } else {
      var n := |fields| - 1;
      DelAllDrops(doc, fields[..n]);
      DelAllLaw(doc, fields[..n], "");
      DelDrops(DelAll(doc, fields[..n]), fields[n]);
      DropTwice(doc, fields[..n], fields[n]);
      assert fields == fields[..n] + [fields[n]];
    }
  }

  lemma {:induction false} DropNone(doc: Doc)
    ensures Dropping(doc, []) == doc
  {
    if doc != [] {
      DropNone(doc[1..]);
    }
  }

  lemma {:induction false} DropTwice(doc: Doc, fields: seq<string>, f: string)
    ensures Dropping(Dropping(doc, fields), [f]) == Dropping(doc, fields + [f])
  {
    if doc != [] {
      DropTwice(doc[1..], fields, f);
      var rest := Dropping(doc[1..], fields);
      assert doc[0].key !in fields ==> ([doc[0]] + rest)[1..] == rest;
      assert doc[0].key in fields ==> [] + rest == rest;
    }
  }

  lemma {:induction false} DelDrops(doc: Doc, f: string)
    requires UniqueKeys(doc)
    ensures Del(doc, f) == Dropping(doc, [f])
  {
    if doc != [] {
      if doc[0].key == f {
        DelOfFirst(doc);
        DropNothing(doc[1..], f);
      } else {
        DelDrops(doc[1..], f);
        DelBehind(doc, f);
      }
    }
  }

  lemma DelOfFirst(doc: Doc)
    requires doc != []
    ensures Del(doc, doc[0].key) == doc[1..]
  {
  }

  lemma DelBehind(doc: Doc, f: string)
    requires doc != [] && doc[0].key != f
    ensures Del(doc, f) == [doc[0]] + Del(doc[1..], f)
  {
    IndexOfShape(doc[1..], f);
    var k := IndexOf(doc[1..], f);
    assert IndexOf(doc, f) == if k < 0 then -1 else k + 1;
    if k >= 0 {
      CutBehind(doc, k);
    }
  }

  lemma CutBehind(doc: Doc, k: nat)
    requires k + 1 < |doc|
    ensures doc[..k + 1] + doc[k + 2..] == [doc[0]] + (doc[1..][..k] + doc[1..][k + 1..])
  {
  }

  lemma {:induction false} DropNothing(doc: Doc, f: string)
    requires forall i :: 0 <= i < |doc| ==> doc[i].key != f
    ensures Dropping(doc, [f]) == doc
  {
    if doc != [] {
      DropNothing(doc[1..], f);
    }
  }

  /**
   * hset_many keeps every pair in its place, gives each named field its last value, leaves the other
   * fields as they were, and adds the new fields behind in the order they are first named.
   */
  lemma HSetManyRule(call: Call, row: Option<Row>)
    requires call.op.HSetMany? && Perform(call, row).1.Ok? && call.op.pairs != []
    ensures var (after, r) := Perform(call, row); var doc := Seen(row, call.now);
            && r == Ok(Done)
            && after.Some? && after.value.content.Hash? && Stored(call, row, after, after.value.content.doc)
            && ManyWritten(doc, after.value.content.doc, call.op.pairs)
  {
    SetAllWrites(Seen(row, call.now), call.op.pairs);
  }

  ghost predicate LastOfKey(pairs: seq<Pair>, i: int) {
    0 <= i < |pairs| && forall j :: i < j < |pairs| ==> pairs[j].key != pairs[i].key
  }

  ghost predicate ManyWritten(doc: Doc, after: Doc, pairs: seq<Pair>) {
    && Keys(after) == Keys(doc) + NewKeys(doc, pairs)
    && (forall i :: LastOfKey(pairs, i) ==> Reads(after, pairs[i].key, pairs[i].value))
    && (forall f, v :: NoPair(pairs, f) ==> (Reads(after, f, v) <==> Reads(doc, f, v)))
  }

  /** The keys of the pairs that the document has not, each once, in the order they first come. */
  function NewKeys(doc: Doc, pairs: seq<Pair>): seq<string>
    decreases |pairs|
  {
    if pairs == [] then []
    else
      var front, key := NewKeys(doc, pairs[..|pairs| - 1]), pairs[|pairs| - 1].key;
      if key in front || exists i :: 0 <= i < |doc| && doc[i].key == key then front else front + [key]
  }

  lemma SetAllWrites(doc: Doc, pairs: seq<Pair>)
    ensures ManyWritten(doc, SetAll(doc, pairs), pairs)
  {
    var after := SetAll(doc, pairs);
    SetAllKeys(doc, pairs);
    forall i | LastOfKey(pairs, i) ensures Reads(after, pairs[i].key, pairs[i].value) {
      SetAllReadsBack(doc, pairs, i);
      GetReads(after, pairs[i].key);
    }
    forall f, v | NoPair(pairs, f) ensures Reads(after, f, v) <==> Reads(doc, f, v) {
      SetAllKeeps(doc, pairs, f);
      GetReads(after, f);
      GetReads(doc, f);
    }
  }

  lemma {:induction false} SetAllKeys(doc: Doc, pairs: seq<Pair>)
    ensures Keys(SetAll(doc, pairs)) == Keys(doc) + NewKeys(doc, pairs)
    decreases |pairs|
  {
    if pairs == [] {
      assert Keys(doc) + [] == Keys(doc);
    } else {
      var n := |pairs| - 1;
      SetAllKeys(doc, pairs[..n]);
      var before, key := SetAll(doc, pairs[..n]), pairs[n].key;
      SetLaw(before, key, pairs[n].value, key);
      HasIsInKeys(before, key);
      HasIsInKeys(doc, key);
    }
  }

  lemma HasIsInKeys(doc: Doc, f: string)
    ensures Has(doc, f) <==> f in Keys(doc)
    ensures f in Keys(doc) <==> exists i :: 0 <= i < |doc| && doc[i].key == f
  {
    IndexOfShape(doc, f);
    assert |Keys(doc)| == |doc| && forall i :: 0 <= i < |doc| ==> Keys(doc)[i] == doc[i].key;
  }

  // ---- The size of the text ------------------------------------------------------------------------

  /** The bytes one character of a name takes between the quotes. */
  function Width(c: char): nat {
    if c as int in {8, 9, 10, 12, 13, 34, 92} then 2 else if (c as int) < 32 then 6 else 1
  }

  function Widths(s: string): nat {
    if s == [] then 0 else Width(s[0]) + Widths(s[1..])
  }

  lemma {:induction false} FieldsSizeAppend(a: Doc, b: Doc)
    ensures FieldsSize(a + b) == FieldsSize(a) + FieldsSize(b)
  {
    if a == [] {
      assert a + b == b;
    } else {
      FieldsSizeAppend(a[1..], b);
      assert (a + b)[1..] == a[1..] + b;
    }
  }

  lemma {:induction false} EscapedWidth(s: string)
    ensures |EscapedKey(s)| == Widths(s)
  {
    if s != [] {
      EscapedWidth(s[1..]);
    }
  }

  /** Braces alone take 2 bytes; each field adds its quoted name, a colon, its value and a comma if not the first. */
  lemma SizeRule(doc: Doc, f: string, v: Value)
    ensures SizeOf([]) == 2
    ensures SizeOf(doc + [Field(f, v)])
            == SizeOf(doc) + (if doc == [] then 0 else 1) + |"\""| + Widths(f) + |"\":"| + |ValueText(v)|
  {
    FieldsSizeAppend(doc, [Field(f, v)]);
    EscapedWidth(f);
    assert [Field(f, v)][1..] == [] && FieldsSize([]) == 0;
  }
}
